/** xHCI root hub port control (kernel/devices/usb/controllers/usb_xhci_port.cpp).
    The port's PORTSC register and the supported-protocol capability are given
    to the model as values. */
module XhciPort {
  import opened Common

  datatype PortStatus =
    | NotConfigured | PoweredOff | Disconnected | Disabled
    | Polling | Enabled | Resetting | Suspended | Invalid

  /** The PORTSC fields the driver looks at. */
  datatype PortStatusCtrl = PortStatusCtrl(
    portPower: bool, currentConnectStatus: bool, portEnabled: bool, portReset: bool,
    portLinkStatus: nat, portSpeed: nat)

  /** The xHCI Supported Protocol capability fields the driver looks at. */
  datatype SupportedProtocolsCap = SupportedProtocolsCap(
    nameString: u32, revisionMajor: byte, protocolSpeedIdCount: nat, protocolSlotType: nat)

  /** The name string "USB " in little-endian order. */
  const USB_NAME_STRING: u32 := 0x2042_5355

  /** The port is usable when the capability names USB 2 or USB 3 and the port
      number is in 1..255. */
  predicate PortDetailsValid(cap: SupportedProtocolsCap, portId: u16)
  {
    cap.nameString == USB_NAME_STRING && (cap.revisionMajor == 2 || cap.revisionMajor == 3) &&
    0 < portId <= 255
  }

  /** calculate_current_status: power, then connection, then enable, then
      reset, then the link state (7 polling, 6 inactive/suspended, anything
      else enabled). */
  function CalculateCurrentStatus(r: PortStatusCtrl): (s: PortStatus)
    ensures !r.portPower <==> s == PoweredOff
    ensures s == Disconnected <==> r.portPower && !r.currentConnectStatus
    ensures s == Disabled <==> r.portPower && r.currentConnectStatus && !r.portEnabled
    ensures s == Resetting <==> r.portPower && r.currentConnectStatus && r.portEnabled && r.portReset
    ensures s == Polling <==> LinkUp(r) && r.portLinkStatus == 7
    ensures s == Suspended <==> LinkUp(r) && r.portLinkStatus == 6
    ensures s == Enabled <==> LinkUp(r) && r.portLinkStatus != 6 && r.portLinkStatus != 7
    ensures s != Invalid && s != NotConfigured
  {
    if !r.portPower then PoweredOff
    else if !r.currentConnectStatus then Disconnected
    else if !r.portEnabled then Disabled
    else if r.portReset then Resetting
    else if r.portLinkStatus == 7 then Polling
    else if r.portLinkStatus == 6 then Suspended
    else Enabled
  }

  /** Powered, connected, enabled and not resetting: the link state decides. */
  predicate LinkUp(r: PortStatusCtrl)
  {
    r.portPower && r.currentConnectStatus && r.portEnabled && !r.portReset
  }

  /** The outcome of get_default_max_packet_size; a matching protocol speed ID
      reaches INCOMPLETE_CODE (SSIC is not supported), a kernel panic. */
  datatype PacketSizeResult = PacketSize(size: u16) | Incomplete

  /** get_default_max_packet_size. speedTable is the protocol speed ID table
      following the capability (its psi_val fields). */
  method GetDefaultMaxPacketSize(r: PortStatusCtrl, cap: SupportedProtocolsCap, speedTable: seq<nat>)
      returns (res: PacketSizeResult)
    requires cap.protocolSpeedIdCount <= |speedTable|
    ensures cap.protocolSpeedIdCount == 0 ==>
      res == PacketSize(if r.portSpeed == 3 then 64 else if r.portSpeed == 4 || r.portSpeed == 5 then 512 else 8)
    ensures cap.protocolSpeedIdCount > 0 ==>
      (res == Incomplete <==> exists i :: 0 <= i < cap.protocolSpeedIdCount && speedTable[i] == r.portSpeed)
    ensures cap.protocolSpeedIdCount > 0 && res != Incomplete ==> res == PacketSize(8)
  {
    var maxSize: u16 := 8;
    if cap.protocolSpeedIdCount == 0 {
      match r.portSpeed {
        case 1 => maxSize := 8;
        case 2 => maxSize := 8;
        case 3 => maxSize := 64;
        case 4 => maxSize := 512;
        case 5 => maxSize := 512;
        case _ =>
      }
      res := PacketSize(maxSize);
    } else {
      var found := false;
      var i := 1;
      while i <= cap.protocolSpeedIdCount
        invariant 1 <= i <= cap.protocolSpeedIdCount + 1
        invariant !found
        invariant forall j :: 0 <= j < i - 1 ==> speedTable[j] != r.portSpeed
      {
        if speedTable[i - 1] == r.portSpeed {
          found := true;
          break;
        }
        i := i + 1;
      }
      res := if found then Incomplete else PacketSize(maxSize);
    }
  }

  /** What port_status_change_event does about a new status. */
  datatype PortAction = NoAction | BeginPolling | CreateDeviceCore | PanicIncomplete

  class RootPort {
    var validPort: bool
    var usb3: bool
    var portId: u16
    var slotType: nat
    var mostRecentStatus: PortStatus

    /** root_port(parent, port_id, regs, cap): a port whose details are invalid
        keeps the default, unusable state. */
    constructor (portId: u16, cap: SupportedProtocolsCap)
      ensures validPort == PortDetailsValid(cap, portId)
      ensures usb3 == (validPort && cap.revisionMajor == 3)
      ensures this.portId == (if validPort then portId else 0)
      ensures slotType == (if validPort then cap.protocolSlotType else 0)
      ensures mostRecentStatus == NotConfigured
    {
      validPort := false;
      usb3 := false;
      this.portId := 0;
      slotType := 0;
      mostRecentStatus := NotConfigured;
      if PortDetailsValid(cap, portId) {
        validPort := true;
        if cap.revisionMajor == 3 {
          usb3 := true;
        }
        this.portId := portId;
        slotType := cap.protocolSlotType;
      }
    }

    /** port_status_change_event: act on a change of status (a change to
        ENABLED creates the device core; a USB 2 port that became disabled in
        link state 7 is reset to start polling; powered off, and any state the
        switch does not name, is unfinished code)
        and remember the new status. */
    method PortStatusChangeEvent(r: PortStatusCtrl) returns (action: PortAction)
      requires validPort
      modifies this`mostRecentStatus
      ensures mostRecentStatus == CalculateCurrentStatus(r)
      ensures CalculateCurrentStatus(r) == old(mostRecentStatus) ==> action == NoAction
      ensures CalculateCurrentStatus(r) != old(mostRecentStatus) ==>
        action == match CalculateCurrentStatus(r)
          case PoweredOff => PanicIncomplete
          case Disabled => if !usb3 && r.portLinkStatus == 7 then BeginPolling else NoAction
          case Enabled => CreateDeviceCore
          case Suspended => PanicIncomplete
          case Invalid => PanicIncomplete
          case _ => NoAction
    {
      var newStatus := CalculateCurrentStatus(r);
      action := NoAction;
      if newStatus != mostRecentStatus {
        match newStatus {
          case PoweredOff => action := PanicIncomplete;
          case Disabled =>
            if !usb3 && r.portLinkStatus == 7 {
              action := BeginPolling;
            }
          case Enabled => action := CreateDeviceCore;
          case Suspended => action := PanicIncomplete;
          case Invalid => action := PanicIncomplete;
          case _ =>
        }
      }
      mostRecentStatus := newStatus;
    }
  }
}
