/** The generic USB device core (kernel/devices/usb/usb_gen_device_core.cpp):
    descriptor requests, selecting a configuration, and the walk over a
    configuration descriptor that sorts the interface, endpoint and other
    descriptors it contains. The replies of the device to control requests
    are parameters of the model. */
module UsbCore {
  import opened Common

  // Descriptor types (usb_gen_device_requests.h).
    const CONFIGURATION: bv8 := 2
  const INTERFACE: byte := 4
  const ENDPOINT: byte := 5

  // Standard request codes.
  const GET_DESCRIPTOR: byte := 6
  const SET_CONFIGURATION: byte := 9

  /** The request type get_descriptor sends unless told otherwise: device to host. */
  const DEVICE_TO_HOST: byte := 0x80

  // Sizes of the packed descriptor structures.
  const CONFIG_DESCRIPTOR_SIZE: nat := 9
  const INTERFACE_DESCRIPTOR_SIZE: nat := 9
  const ENDPOINT_DESCRIPTOR_SIZE: nat := 7

  /** A control request as handed to device_request. */
  datatype Request = Request(requestType: byte, request: byte, value: bv16, index: u16, length: u16)

  /* ---------------------------------------------------------------------
     get_descriptor
     --------------------------------------------------------------------- */

  /** The wValue of GET_DESCRIPTOR: the type shifted into the high byte of a
      16-bit value, the index or-ed into the low byte. */
  function DescriptorValue(descriptorType: bv8, idx: bv8): bv16
  {
    ((descriptorType as bv16) << 8) | (idx as bv16)
  }

  /** get_descriptor: the GET_DESCRIPTOR request it sends. The type and the
      index can be read back from the high and low bytes of its value. */
  function GetDescriptor(descriptorType: bv8, idx: bv8, languageId: u16, length: u16,
                         requestType: byte): (r: Request)
    ensures r.request == GET_DESCRIPTOR && r.requestType == requestType
    ensures (r.value >> 8) as bv8 == descriptorType && (r.value & 0xFF) as bv8 == idx
    ensures r.index == languageId && r.length == length
  {
    Request(requestType, GET_DESCRIPTOR, DescriptorValue(descriptorType, idx), languageId, length)
  }

  /** Requests for different descriptors never coincide. */
  lemma GetDescriptorInjective(t1: bv8, i1: bv8, t2: bv8, i2: bv8, lang: u16, len: u16, rt: byte)
    requires GetDescriptor(t1, i1, lang, len, rt) == GetDescriptor(t2, i2, lang, len, rt)
    ensures t1 == t2 && i1 == i2
  {
    var r1 := GetDescriptor(t1, i1, lang, len, rt);
    var r2 := GetDescriptor(t2, i2, lang, len, rt);
    assert r1.value == r2.value;
  }

  /* ---------------------------------------------------------------------
     Reading a configuration descriptor
     --------------------------------------------------------------------- */

  /** The byte at i, or zero past the end of the buffer. */
  function ByteAt(s: seq<byte>, i: nat): byte
  {
    if i < |s| then s[i] else 0
  }

  /** The n bytes of s from offset on, zero past its end: what memcpy of a
      descriptor structure copies. */
  function Slice(s: seq<byte>, offset: nat, n: nat): (r: seq<byte>)
    ensures |r| == n
    ensures forall k | 0 <= k < n :: r[k] == ByteAt(s, offset + k)
  {
    seq<byte>(n, k requires 0 <= k < n => ByteAt(s, offset + k))
  }

  /** A freshly allocated, zeroed buffer of n bytes after the device wrote
      reply into it: the reply cut to n bytes, zeros after a short reply. */
  function Fit(reply: seq<byte>, n: nat): (r: seq<byte>)
    ensures |r| == n
    ensures forall k | 0 <= k < n :: r[k] == ByteAt(reply, k)
  {
    Slice(reply, 0, n)
  }

  /** The total_length field of a configuration descriptor. */
  function TotalLength(desc: seq<byte>): u16
  {
    ByteAt(desc, 2) + 0x100 * ByteAt(desc, 3)
  }

  /** One interface of a configuration: its descriptor, its endpoint
      descriptors and the offsets of the other descriptors attached to it. */
  datatype Interface = Interface(desc: seq<byte>, endpoints: seq<seq<byte>>, others: seq<nat>)

  /** An interface slot as allocated: zeroed. */
  function EmptyInterface(): Interface
  {
    Interface(Slice([], 0, INTERFACE_DESCRIPTOR_SIZE), [], [])
  }

  /** The num_endpoints field of an interface descriptor. */
  function NumEndpoints(i: Interface): byte
  {
    ByteAt(i.desc, 4)
  }

  /** A configuration as read_config_descriptor leaves it: its own
      descriptor, its interfaces and the offsets of the other descriptors
      met before the first interface. */
  datatype DeviceConfig = DeviceConfig(desc: seq<byte>, interfaces: seq<Interface>, others: seq<nat>)

  /** The index sent over the wire to select this configuration. */
  function ConfigIndexNumber(c: DeviceConfig): byte
  {
    ByteAt(c.desc, 5)
  }

  /** The walker's variables: whether an interface has been seen, the
      current interface and endpoint, and what has been filled in. */
  datatype Walker = Walker(found: bool, iface: nat, endpoint: nat, interfaces: seq<Interface>, others: seq<nat>)

  /** Once an interface has been seen, the current one is a real slot. */
  predicate Tracked(w: Walker)
  {
    (w.found ==> w.iface < |w.interfaces|) && (!w.found ==> w.iface == 0 && w.endpoint == 0)
  }

  /** The walker before the first descriptor after the configuration
      descriptor: num_interfaces zeroed slots. */
  function Start(raw: seq<byte>): (w: Walker)
    ensures Tracked(w)
  {
    Walker(false, 0, 0, seq(ByteAt(raw, 4), _ => EmptyInterface()), [])
  }

  datatype Outcome = Rejected | Accepted(w: Walker)

  /** One pass of the loop over the descriptor at offset, before the cursor
      moves on. An interface descriptor is refused while the previous
      interface is missing endpoints, and when there is no slot left for
      it; an endpoint is refused before any interface or beyond the number
      the interface declares; anything else is attached to the current
      interface, or to the configuration before the first one. */
  function DescriptorStep(raw: seq<byte>, offset: nat, w: Walker): (r: Outcome)
    requires Tracked(w)
    ensures r.Accepted? ==> Tracked(r.w)
  {
    var t := ByteAt(raw, offset + 1);
    if t == INTERFACE then
      if w.found && w.endpoint != NumEndpoints(w.interfaces[w.iface]) then Rejected
      else
        var n := if w.found then w.iface + 1 else 0;
        if n >= |w.interfaces| then Rejected
        else
          var slot := w.interfaces[n].(desc := Slice(raw, offset, INTERFACE_DESCRIPTOR_SIZE), others := []);
          Accepted(w.(found := true, iface := n, endpoint := 0, interfaces := w.interfaces[n := slot]))
    else if t == ENDPOINT then
      if !w.found || w.endpoint == NumEndpoints(w.interfaces[w.iface]) then Rejected
      else
        var cur := w.interfaces[w.iface];
        var slot := cur.(endpoints := cur.endpoints + [Slice(raw, offset, ENDPOINT_DESCRIPTOR_SIZE)]);
        Accepted(w.(endpoint := w.endpoint + 1, interfaces := w.interfaces[w.iface := slot]))
    else if !w.found then
      Accepted(w.(others := w.others + [offset]))
    else
      var cur := w.interfaces[w.iface];
      Accepted(w.(interfaces := w.interfaces[w.iface := cur.(others := cur.others + [offset])]))
  }

  /** After the loop: the last interface must have all its endpoints. */
  predicate Finished(w: Walker)
    requires Tracked(w)
  {
    w.found ==> w.endpoint == NumEndpoints(w.interfaces[w.iface])
  }

  /** The walk from offset to the end of the buffer, moving on by each
      header's length; a zero-length header is refused. */
  function Walk(raw: seq<byte>, offset: nat, w: Walker): Option<Walker>
    requires Tracked(w)
    decreases |raw| - offset
  {
    if offset >= |raw| then (if Finished(w) then Some(w) else None)
    else if raw[offset] == 0 then None
    else
      match DescriptorStep(raw, offset, w)
      case Rejected => None
      case Accepted(w') => Walk(raw, offset + raw[offset], w')
  }

  /** What read_config_descriptor makes of the two replies to its requests
      (None: the request failed): whether it succeeded and the
      configuration it filled in. */
  function ReadConfig(first: Option<seq<byte>>, second: Option<seq<byte>>): (bool, DeviceConfig)
  {
    if first.None? || second.None? then (false, DeviceConfig([], [], []))
    else
      var raw := Fit(second.value, TotalLength(Fit(first.value, CONFIG_DESCRIPTOR_SIZE)));
      match Walk(raw, CONFIG_DESCRIPTOR_SIZE, Start(raw))
      case None => (false, DeviceConfig([], [], []))
      case Some(w) => (true, DeviceConfig(Slice(raw, 0, CONFIG_DESCRIPTOR_SIZE), w.interfaces, w.others))
  }

  /** The two GET_DESCRIPTOR requests: the fixed-size descriptor first, then
      as many bytes as its total_length says. */
  function ConfigRequests(index: bv8, first: Option<seq<byte>>): seq<Request>
  {
    var short := GetDescriptor(CONFIGURATION, index, 0, CONFIG_DESCRIPTOR_SIZE, DEVICE_TO_HOST);
    if first.None? then [short]
    else [short, GetDescriptor(CONFIGURATION, index, 0, TotalLength(Fit(first.value, CONFIG_DESCRIPTOR_SIZE)), DEVICE_TO_HOST)]
  }

  /** read_config_descriptor: requests the descriptor twice, then walks the
      descriptors behind the configuration descriptor. The configuration is
      only described when the read succeeds. */
  method ReadConfigDescriptor(index: bv8, first: Option<seq<byte>>, second: Option<seq<byte>>)
    returns (ok: bool, config: DeviceConfig, requests: seq<Request>)
    ensures requests == ConfigRequests(index, first)
    ensures ok == ReadConfig(first, second).0
    ensures ok ==> config == ReadConfig(first, second).1
  {
    requests := ConfigRequests(index, first);
    config := DeviceConfig([], [], []);
    if first.None? || second.None? {
      return false, config, requests;
    }
    var trueLength := TotalLength(Fit(first.value, CONFIG_DESCRIPTOR_SIZE));
    var raw := Fit(second.value, trueLength);
    var interfaces, others;
    ok, interfaces, others := WalkDescriptors(raw);
    if ok {
      config := DeviceConfig(Slice(raw, 0, CONFIG_DESCRIPTOR_SIZE), interfaces, others);
    }
  }

  /** The loop of read_config_descriptor over the descriptors behind the
      configuration descriptor, and the final check on the last interface. */
  method WalkDescriptors(raw: seq<byte>) returns (ok: bool, interfaces: seq<Interface>, others: seq<nat>)
    ensures ok == Walk(raw, CONFIG_DESCRIPTOR_SIZE, Start(raw)).Some?
    ensures ok ==> interfaces == Walk(raw, CONFIG_DESCRIPTOR_SIZE, Start(raw)).value.interfaces
    ensures ok ==> others == Walk(raw, CONFIG_DESCRIPTOR_SIZE, Start(raw)).value.others
  {
    var found := false;
    var iface: nat := 0;
    var endpoint: nat := 0;
    interfaces := seq(ByteAt(raw, 4), _ => EmptyInterface());
    others := [];
    var offset: nat := CONFIG_DESCRIPTOR_SIZE;
    ok := true;
    while offset < |raw| && ok
      invariant Tracked(Walker(found, iface, endpoint, interfaces, others))
      invariant ok ==> Walk(raw, offset, Walker(found, iface, endpoint, interfaces, others))
                       == Walk(raw, CONFIG_DESCRIPTOR_SIZE, Start(raw))
      invariant !ok ==> Walk(raw, CONFIG_DESCRIPTOR_SIZE, Start(raw)).None?
      decreases |raw| - offset, if ok then 1 else 0
    {
      var len := raw[offset];
      var t := ByteAt(raw, offset + 1);
      ghost var step := DescriptorStep(raw, offset, Walker(found, iface, endpoint, interfaces, others));
      if len == 0 {
        ok := false;
      } else if t == INTERFACE {
        if found && endpoint != NumEndpoints(interfaces[iface]) {
          ok := false;
        } else {
          var n := if found then iface + 1 else 0;
          if n >= |interfaces| {
            ok := false;
          } else {
            interfaces := interfaces[n := interfaces[n].(desc := Slice(raw, offset, INTERFACE_DESCRIPTOR_SIZE), others := [])];
            found, iface, endpoint := true, n, 0;
          }
        }
      } else if t == ENDPOINT {
        if !found || endpoint == NumEndpoints(interfaces[iface]) {
          ok := false;
        } else {
          var cur := interfaces[iface];
          interfaces := interfaces[iface := cur.(endpoints := cur.endpoints + [Slice(raw, offset, ENDPOINT_DESCRIPTOR_SIZE)])];
          endpoint := endpoint + 1;
        }
      } else if !found {
        others := others + [offset];
      } else {
        var cur := interfaces[iface];
        interfaces := interfaces[iface := cur.(others := cur.others + [offset])];
      }
      if ok {
        assert step == Accepted(Walker(found, iface, endpoint, interfaces, others));
        offset := offset + len;
      } else {
        assert len == 0 || step == Rejected;
      }
    }
    if ok && found && endpoint != NumEndpoints(interfaces[iface]) {
      ok := false;
    }
  }

  /* ---------------------------------------------------------------------
     What a successful walk guarantees
     --------------------------------------------------------------------- */

  /** Slot i is counted: the interfaces before the current one have all
      their endpoints, the current one has as many as the walker counted
      (no more than it declares), and the slots after it are untouched. */
  predicate SlotCounted(w: Walker, i: nat)
    requires i < |w.interfaces|
  {
    if w.found && i < w.iface then |w.interfaces[i].endpoints| == NumEndpoints(w.interfaces[i])
    else if w.found && i == w.iface then
      |w.interfaces[i].endpoints| == w.endpoint <= NumEndpoints(w.interfaces[i])
    else w.interfaces[i] == EmptyInterface()
  }

  predicate Counted(w: Walker)
  {
    Tracked(w) && forall i | 0 <= i < |w.interfaces| :: SlotCounted(w, i)
  }

  /** Every interface the walk filled in holds exactly the endpoints it
      declares; the slots it never reached are still zeroed. */
  predicate AllEndpoints(w: Walker)
  {
    Tracked(w) &&
    forall i | 0 <= i < |w.interfaces| ::
      if w.found && i <= w.iface then |w.interfaces[i].endpoints| == NumEndpoints(w.interfaces[i])
      else w.interfaces[i] == EmptyInterface()
  }

  lemma StepKeepsCounted(raw: seq<byte>, offset: nat, w: Walker)
    requires Counted(w)
    ensures DescriptorStep(raw, offset, w).Accepted? ==> Counted(DescriptorStep(raw, offset, w).w)
  {
    var r := DescriptorStep(raw, offset, w);
    if r.Accepted? {
      var w' := r.w;
      forall i | 0 <= i < |w'.interfaces|
        ensures SlotCounted(w', i)
      {
        assert SlotCounted(w, i);
      }
    }
  }

  lemma {:induction false} WalkFindsAllEndpoints(raw: seq<byte>, offset: nat, w: Walker)
    requires Counted(w)
    ensures Walk(raw, offset, w).Some? ==> AllEndpoints(Walk(raw, offset, w).value)
    decreases |raw| - offset
  {
    if offset >= |raw| {
      if Finished(w) {
        forall i | 0 <= i < |w.interfaces|
          ensures if w.found && i <= w.iface then |w.interfaces[i].endpoints| == NumEndpoints(w.interfaces[i])
                  else w.interfaces[i] == EmptyInterface()
        {
          assert SlotCounted(w, i);
        }
      }
    } else if raw[offset] != 0 {
      StepKeepsCounted(raw, offset, w);
      match DescriptorStep(raw, offset, w)
      case Rejected =>
      case Accepted(w') => WalkFindsAllEndpoints(raw, offset + raw[offset], w');
    }
  }

  /** A successful read_config_descriptor leaves every interface it filled
      in with exactly the endpoints it declares. */
  lemma ReadConfigFindsAllEndpoints(first: Option<seq<byte>>, second: Option<seq<byte>>)
    requires first.Some? && second.Some?
    ensures var raw := Fit(second.value, TotalLength(Fit(first.value, CONFIG_DESCRIPTOR_SIZE)));
            var r := Walk(raw, CONFIG_DESCRIPTOR_SIZE, Start(raw));
            r.Some? ==> AllEndpoints(r.value)
  {
    var raw := Fit(second.value, TotalLength(Fit(first.value, CONFIG_DESCRIPTOR_SIZE)));
    var w := Start(raw);
    forall i | 0 <= i < |w.interfaces|
      ensures SlotCounted(w, i)
    {
    }
    WalkFindsAllEndpoints(raw, CONFIG_DESCRIPTOR_SIZE, w);
  }

  /** The offsets the walker visits: each header's start, moving on by its
      length until the end of the buffer or a zero length. */
  ghost function HeaderStarts(raw: seq<byte>, offset: nat): set<nat>
    decreases |raw| - offset
  {
    if offset >= |raw| || raw[offset] == 0 then {}
    else {offset} + HeaderStarts(raw, offset + raw[offset])
  }

  /** A descriptor that is neither an interface nor an endpoint. */
  predicate Plain(raw: seq<byte>, o: nat)
  {
    ByteAt(raw, o + 1) != INTERFACE && ByteAt(raw, o + 1) != ENDPOINT
  }

  predicate PlainIn(raw: seq<byte>, offsets: seq<nat>, starts: set<nat>)
  {
    forall k | 0 <= k < |offsets| :: offsets[k] in starts && Plain(raw, offsets[k])
  }

  /** Every attached offset is the start of a header on the walk's path and
      holds a descriptor that is neither an interface nor an endpoint. */
  predicate OthersAre(raw: seq<byte>, w: Walker, starts: set<nat>)
  {
    PlainIn(raw, w.others, starts) &&
    forall i | 0 <= i < |w.interfaces| :: PlainIn(raw, w.interfaces[i].others, starts)
  }

  lemma StepKeepsOthers(raw: seq<byte>, offset: nat, w: Walker, starts: set<nat>)
    requires Tracked(w) && OthersAre(raw, w, starts) && offset in starts
    ensures DescriptorStep(raw, offset, w).Accepted? ==> OthersAre(raw, DescriptorStep(raw, offset, w).w, starts)
  {
    var r := DescriptorStep(raw, offset, w);
    if r.Accepted? {
      var w' := r.w;
      forall i | 0 <= i < |w'.interfaces|
        ensures PlainIn(raw, w'.interfaces[i].others, starts)
      {
        assert PlainIn(raw, w.interfaces[i].others, starts);
      }
    }
  }

  lemma {:induction false} WalkOthersAreHeaders(raw: seq<byte>, offset: nat, w: Walker, starts: set<nat>)
    requires Tracked(w) && OthersAre(raw, w, starts) && HeaderStarts(raw, offset) <= starts
    ensures Walk(raw, offset, w).Some? ==> OthersAre(raw, Walk(raw, offset, w).value, starts)
    decreases |raw| - offset
  {
    if offset < |raw| && raw[offset] != 0 {
      assert offset in HeaderStarts(raw, offset);
      StepKeepsOthers(raw, offset, w, starts);
      match DescriptorStep(raw, offset, w)
      case Rejected =>
      case Accepted(w') => WalkOthersAreHeaders(raw, offset + raw[offset], w', starts);
    }
  }

  /** The descriptors a successful read attaches to the configuration or to
      an interface are exactly headers met by moving on by each header's
      length from the end of the configuration descriptor. */
  lemma ReadConfigOthersAreHeaders(first: Option<seq<byte>>, second: Option<seq<byte>>)
    requires first.Some? && second.Some?
    ensures var raw := Fit(second.value, TotalLength(Fit(first.value, CONFIG_DESCRIPTOR_SIZE)));
            var r := Walk(raw, CONFIG_DESCRIPTOR_SIZE, Start(raw));
            r.Some? ==> OthersAre(raw, r.value, HeaderStarts(raw, CONFIG_DESCRIPTOR_SIZE))
  {
    var raw := Fit(second.value, TotalLength(Fit(first.value, CONFIG_DESCRIPTOR_SIZE)));
    var w := Start(raw);
    forall i | 0 <= i < |w.interfaces|
      ensures PlainIn(raw, w.interfaces[i].others, HeaderStarts(raw, CONFIG_DESCRIPTOR_SIZE))
    {
      assert w.interfaces[i] == EmptyInterface();
    }
    WalkOthersAreHeaders(raw, CONFIG_DESCRIPTOR_SIZE, w, HeaderStarts(raw, CONFIG_DESCRIPTOR_SIZE));
  }

  /** An endpoint descriptor before any interface descriptor makes the whole
      read fail. */
  lemma EndpointBeforeInterfaceFails(raw: seq<byte>, offset: nat, w: Walker)
    requires Tracked(w) && !w.found && offset < |raw| && ByteAt(raw, offset + 1) == ENDPOINT
    ensures Walk(raw, offset, w).None?
  {
  }

  /** One endpoint descriptor more than the current interface declares makes
      the whole read fail. */
  lemma TooManyEndpointsFails(raw: seq<byte>, offset: nat, w: Walker)
    requires Tracked(w) && w.found && w.endpoint == NumEndpoints(w.interfaces[w.iface])
    requires offset < |raw| && ByteAt(raw, offset + 1) == ENDPOINT
    ensures Walk(raw, offset, w).None?
  {
  }

  /** A new interface descriptor while the current interface still lacks
      endpoints makes the whole read fail. */
  lemma MissingEndpointsFails(raw: seq<byte>, offset: nat, w: Walker)
    requires Tracked(w) && w.found && w.endpoint != NumEndpoints(w.interfaces[w.iface])
    requires offset < |raw| && ByteAt(raw, offset + 1) == INTERFACE
    ensures Walk(raw, offset, w).None?
  {
  }

  /* ---------------------------------------------------------------------
     The walker step as written
     --------------------------------------------------------------------- */

  datatype RawOutcome = RawRejected | RawAccepted(w: Walker, next: nat) | WritesPastInterfaces(slot: nat)

  /** The loop body as written: no check of the header length and no bound
      on the interface slot a new interface descriptor is copied into. */
  function DescriptorStepAsWritten(raw: seq<byte>, offset: nat, w: Walker): (r: RawOutcome)
    requires Tracked(w) && offset < |raw|
    ensures r.WritesPastInterfaces? ==> ByteAt(raw, offset + 1) == INTERFACE && r.slot >= |w.interfaces|
    ensures r.RawAccepted? ==> r.next == offset + raw[offset] && DescriptorStep(raw, offset, w) == Accepted(r.w)
    ensures r.RawRejected? <==> !r.WritesPastInterfaces? && DescriptorStep(raw, offset, w).Rejected?
  {
    var next := offset + raw[offset];
    var t := ByteAt(raw, offset + 1);
    if t == INTERFACE && !(w.found && w.endpoint != NumEndpoints(w.interfaces[w.iface])) then
      var n := if w.found then w.iface + 1 else 0;
      if n >= |w.interfaces| then WritesPastInterfaces(n)
      else match DescriptorStep(raw, offset, w)
        case Rejected => RawRejected
        case Accepted(w') => RawAccepted(w', next)
    else
      match DescriptorStep(raw, offset, w)
      case Rejected => RawRejected
      case Accepted(w') => RawAccepted(w', next)
  }

  /** A zero-length descriptor of any other type is accepted and leaves the
      cursor where it was, so the loop as written never ends; the walk as
      modelled refuses it. */
  lemma ZeroLengthHeaderStalls(raw: seq<byte>, offset: nat, w: Walker)
    requires Tracked(w) && offset < |raw| && raw[offset] == 0 && Plain(raw, offset)
    ensures DescriptorStepAsWritten(raw, offset, w).RawAccepted?
    ensures DescriptorStepAsWritten(raw, offset, w).next == offset
    ensures Walk(raw, offset, w).None?
  {
  }

  /** A second interface descriptor in a configuration declaring one
      interface is copied into slot 1 of a one-slot array as written; the
      walk as modelled refuses it. */
  lemma ExtraInterfaceOverruns(raw: seq<byte>, offset: nat, w: Walker)
    requires Tracked(w) && w.found && |w.interfaces| == 1
    requires w.endpoint == NumEndpoints(w.interfaces[w.iface])
    requires offset < |raw| && ByteAt(raw, offset + 1) == INTERFACE
    ensures DescriptorStepAsWritten(raw, offset, w) == WritesPastInterfaces(1)
    ensures DescriptorStep(raw, offset, w) == Rejected
  {
  }

  /* ---------------------------------------------------------------------
     set_configuration
     --------------------------------------------------------------------- */

  /** The configuration-related state of a generic_core. */
  class GenericCore {
    var numConfigurations: byte
    var configurations: seq<DeviceConfig>
    var activeConfiguration: byte

    /** One configuration read per configuration the device descriptor
        announces. */
    predicate Valid()
      reads this
    {
      |configurations| == numConfigurations
    }

    /** set_configuration: an index within the configurations sends
        SET_CONFIGURATION with that configuration's own index number and,
        when the device accepts it, becomes the active configuration; any
        other index fails without a request. */
    method SetConfiguration(configNum: byte, deviceAccepts: bool) returns (result: bool, request: Option<Request>)
      requires Valid()
      modifies this
      ensures Valid()
      ensures result <==> configNum < numConfigurations && deviceAccepts
      ensures request == if configNum < numConfigurations
                         then Some(Request(0, SET_CONFIGURATION, ConfigIndexNumber(configurations[configNum]) as bv16, 0, 0))
                         else None
      ensures activeConfiguration == if result then configNum else old(activeConfiguration)
      ensures numConfigurations == old(numConfigurations) && configurations == old(configurations)
    {
      result := false;
      request := None;
      if configNum < numConfigurations {
        request := Some(Request(0, SET_CONFIGURATION, ConfigIndexNumber(configurations[configNum]) as bv16, 0, 0));
        result := deviceAccepts;
        if result {
          activeConfiguration := configNum;
        }
      }
    }
  }
}
