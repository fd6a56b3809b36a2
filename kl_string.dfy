/** The kernel's string class (kl_string in kernel/klib/data_structures/string.cpp).
    A kl_string is a character buffer, possibly absent, whose text runs up to
    the first NUL or the end of the buffer. The C helpers kl_strlen and
    kl_strcmp are not part of this model; they are read as a bounded strlen
    and a bounded comparison that is 0 exactly when the two texts agree. */
module KlString {
  import opened Common

  const NPOS: u64 := 0xFFFF_FFFF_FFFF_FFFF

  /** string_contents with its buffer_length characters; [] stands for a
      null buffer or a zero buffer_length. */
  datatype Str = Str(buffer: seq<char>)

  /** length(): the characters before the first NUL within the buffer. */
  function Length(s: Str): (n: nat)
    ensures n <= |s.buffer|
    ensures NoNulIn(s.buffer, 0, n)
    ensures n < |s.buffer| ==> s.buffer[n] == 0 as char
  {
    NulFrom(s.buffer, 0)
  }

  /** The index of the first NUL at or after i, or the buffer's end. */
  function NulFrom(b: seq<char>, i: nat): (n: nat)
    requires i <= |b|
    ensures i <= n <= |b|
    ensures NoNulIn(b, i, n)
    ensures n < |b| ==> b[n] == 0 as char
    decreases |b| - i
  {
    if i == |b| || b[i] == 0 as char then i else NulFrom(b, i + 1)
  }

  /** A stretch free of NUL that ends at a NUL or the buffer's end is what
      NulFrom finds. */
  lemma {:induction false} NulFromIs(b: seq<char>, i: nat, m: nat)
    requires i <= m <= |b| && NoNulIn(b, i, m) && (m < |b| ==> b[m] == 0 as char)
    ensures NulFrom(b, i) == m
    decreases m - i
  {
    if i < m {
      NulFromIs(b, i + 1, m);
    }
  }

  predicate NoNulIn(b: seq<char>, i: nat, n: nat)
  {
    forall k :: i <= k < n && k < |b| ==> b[k] != 0 as char
  }

  /** The text the string holds. */
  function Text(s: Str): seq<char>
  {
    s.buffer[..Length(s)]
  }

  predicate NoNul(t: seq<char>)
  {
    forall i :: 0 <= i < |t| ==> t[i] != 0 as char
  }

  /** The string a buffer of text plus terminator makes. */
  function FromText(t: seq<char>): Str
  {
    Str(t + [0 as char])
  }

  lemma FromTextText(t: seq<char>)
    requires NoNul(t)
    ensures Length(FromText(t)) == |t| && Text(FromText(t)) == t
  {
    var b := t + [0 as char];
    NulFromIs(b, 0, |t|);
    assert b[..|t|] == t;
  }

  /** operator== between kl_strings: an absent buffer equals any empty text. */
  function Equal(a: Str, b: Str): (r: bool)
    ensures r <==> Text(a) == Text(b)
  {
    if |a.buffer| == 0 then |b.buffer| == 0 || b.buffer[0] == 0 as char
    else if |b.buffer| == 0 then a.buffer[0] == 0 as char
    else Text(a) == Text(b)
  }

  /** operator+: a buffer of our_length + other_length + 1 holding both texts. */
  function Concat(a: Str, b: Str): (r: Str)
    ensures Length(r) == Length(a) + Length(b)
    ensures Text(r) == Text(a) + Text(b)
    ensures |r.buffer| == Length(a) + Length(b) + 1
  {
    var r := FromText(Text(a) + Text(b));
    FromTextText(Text(a) + Text(b));
    r
  }

  /** operator+ as written: the second string's text is copied together
      with the character after it, other_length + 1 characters in all. In a
      terminated buffer that character is the NUL; in a buffer without one
      it lies past the buffer (for an absent buffer, at the null pointer),
      and past stands for whatever is read there. */
  function ConcatAsWritten(a: Str, b: Str, past: char): (r: Str)
    ensures |r.buffer| == Length(a) + Length(b) + 1
    ensures r.buffer[..Length(a) + Length(b)] == Text(a) + Text(b)
    ensures r.buffer[Length(a) + Length(b)] == if Length(b) < |b.buffer| then 0 as char else past
  {
    var after := if Length(b) < |b.buffer| then b.buffer[Length(b)] else past;
    Str(Text(a) + Text(b) + [after])
  }

  /** With a terminated second string the copy is the corrected Concat. */
  lemma ConcatAsWrittenTerminated(a: Str, b: Str, past: char)
    requires Length(b) < |b.buffer|
    ensures ConcatAsWritten(a, b, past) == Concat(a, b)
  {
  }

  /** Without a terminator in the second buffer the sum is unterminated
      when the character past that buffer is not NUL: "a" + the one
      character buffer "x", with 'y' past it, holds "axy" with no NUL, so
      its length is 3 where the texts add up to 2. */
  lemma ConcatUnterminatedAsWritten()
    ensures var a, b := FromText(['a']), Str(['x']);
      && Length(a) + Length(b) == 2
      && Length(ConcatAsWritten(a, b, 'y')) == 3
      && Length(Concat(a, b)) == 2
  {
    var a, b := FromText(['a']), Str(['x']);
    FromTextText(['a']);
    NulFromIs(b.buffer, 0, 1);
    var r := ConcatAsWritten(a, b, 'y');
    assert r.buffer == ['a', 'x', 'y'];
    NulFromIs(r.buffer, 0, 3);
  }

  /** operator[]: Some(pos) is the reference string_contents + pos, None
      the shared out_of_bounds character. Position length() itself is let
      through, and so is buffer_length when the buffer holds no NUL: that
      reference lies just past the buffer, and for a string without a
      buffer it is the null pointer (AtPastBufferAsWritten). */
  function At(s: Str, pos: u64): (r: Option<nat>)
    ensures r.Some? <==> pos <= Length(s)
    ensures r.Some? ==> r.value == pos
  {
    if pos > |s.buffer| || pos > Length(s) then None else Some(pos)
  }

  /** A string with a terminator never hands out a position outside its buffer. */
  lemma AtStaysInBuffer(s: Str, pos: u64)
    requires Length(s) < |s.buffer|
    ensures At(s, pos).Some? ==> At(s, pos).value < |s.buffer|
  {
  }

  /** A buffer without a terminator hands out the position just past its
      end; a string without a buffer hands out position 0 of nothing. */
  lemma AtPastBufferAsWritten(s: Str)
    requires Length(s) == |s.buffer| < TWO_TO_64
    ensures At(s, |s.buffer| as u64) == Some(|s.buffer|)
    ensures At(Str([]), 0) == Some(0)
  {
  }

  /** operator[] with the bound its check evidently intends: a position is
      let through only when it lies inside the buffer and not past the
      text's terminator. */
  function AtCorrected(s: Str, pos: u64): (r: Option<nat>)
    ensures r.Some? <==> pos <= Length(s) && pos < |s.buffer|
    ensures r.Some? ==> r.value == pos && r.value < |s.buffer|
  {
    if pos >= |s.buffer| || pos > Length(s) then None else Some(pos)
  }

  /** For a string with a terminator the two agree; they differ exactly at
      the end of a buffer without one. */
  lemma AtCorrectedAgrees(s: Str, pos: u64)
    ensures AtCorrected(s, pos) != At(s, pos) <==> Length(s) == |s.buffer| == pos
  {
  }

  /** substr(start, len). The source computes start + len in uint64_t; a
      length other than npos whose sum wraps is not modelled. */
  function Substr(s: Str, start: u64, len: u64): (r: Str)
    requires |s.buffer| < TWO_TO_64
    requires len == NPOS || start + len < TWO_TO_64 || start > Length(s)
    ensures start > Length(s) || len == 0 ==> Text(r) == []
    ensures start <= Length(s) && len != 0 ==>
      Length(r) == Min(len, Length(s) - start) &&
      Text(r) == Text(s)[start..start + Min(len, Length(s) - start)]
  {
    var ourLen := Length(s);
    if start > ourLen || len == 0 then
      FromTextText([]);
      FromText([])
    else
      var n := if len == NPOS || start + len > ourLen then ourLen - start else len;
      SubText(s, start, n);
      FromText(s.buffer[start..start + n])
  }

  lemma SubText(s: Str, start: nat, n: nat)
    requires start + n <= Length(s)
    ensures Length(FromText(s.buffer[start..start + n])) == n
    ensures Text(FromText(s.buffer[start..start + n])) == Text(s)[start..start + n]
  {
    var t := s.buffer[start..start + n];
    forall k | 0 <= k < n
      ensures t[k] == Text(s)[start..start + n][k] && t[k] != 0 as char
    {
      assert t[k] == s.buffer[start + k];
    }
    assert t == Text(s)[start..start + n];
    FromTextText(t);
  }

  /** Comparing the buffer window at p with sub tests whether sub occurs
      at p in the text. */
  lemma Window(s: Str, sub: seq<char>, p: nat)
    requires p + |sub| <= Length(s)
    ensures OccursAt(Text(s), sub, p) <==> s.buffer[p..p + |sub|] == sub
  {
    assert Text(s)[p..p + |sub|] == s.buffer[p..p + |sub|];
  }

  /** sub occurs in t at position p. */
  predicate OccursAt(t: seq<char>, sub: seq<char>, p: nat)
  {
    p + |sub| <= |t| && t[p..p + |sub|] == sub
  }

  /** The first p in from..limit-1 at which sub occurs, or NPOS. */
  function FirstIn(t: seq<char>, sub: seq<char>, from: nat, limit: nat): (r: u64)
    requires limit < NPOS
    decreases limit - from
    ensures r != NPOS ==> from <= r < limit && OccursAt(t, sub, r)
    ensures r != NPOS ==> forall q :: from <= q < r ==> !OccursAt(t, sub, q)
    ensures r == NPOS ==> forall q :: from <= q < limit ==> !OccursAt(t, sub, q)
  {
    if from >= limit then NPOS
    else if OccursAt(t, sub, from) then from
    else FirstIn(t, sub, from + 1, limit)
  }

  /** The last p below limit at which sub occurs, or NPOS. */
  function LastBelow(t: seq<char>, sub: seq<char>, limit: nat): (r: u64)
    requires limit < NPOS
    decreases limit
    ensures r != NPOS ==> r < limit && OccursAt(t, sub, r)
    ensures r != NPOS ==> forall q :: r < q < limit ==> !OccursAt(t, sub, q)
    ensures r == NPOS ==> forall q :: 0 <= q < limit ==> !OccursAt(t, sub, q)
  {
    if limit == 0 then NPOS
    else if OccursAt(t, sub, limit - 1) then limit - 1
    else LastBelow(t, sub, limit - 1)
  }

  /** One step of the downward search, stated on the buffer. */
  lemma LastBelowStep(s: Str, sub: seq<char>, p: nat)
    requires 0 < p && p - 1 + |sub| <= Length(s) && p < NPOS
    ensures LastBelow(Text(s), sub, p) ==
      if s.buffer[p - 1..p - 1 + |sub|] == sub then p - 1 else LastBelow(Text(s), sub, p - 1)
  {
    Window(s, sub, p - 1);
  }

  /** find as written: only positions p < length() - substr.length() are
      tried, so the last possible position is never examined. */
  method Find(s: Str, sub: Str) returns (r: u64)
    requires Length(s) < NPOS
    ensures Length(sub) > Length(s) ==> r == NPOS
    ensures Length(sub) <= Length(s) ==> r == FirstIn(Text(s), Text(sub), 0, Length(s) - Length(sub))
  {
    var ourLen := Length(s);
    var subLen := Length(sub);
    if subLen > ourLen {
      return NPOS;
    }
    ghost var t := Text(s);
    var u := Text(sub);
    var p := 0;
    while p < ourLen - subLen
      invariant p <= ourLen - subLen
      invariant FirstIn(t, u, 0, ourLen - subLen) == FirstIn(t, u, p, ourLen - subLen)
    {
      Window(s, u, p);
      if s.buffer[p..p + subLen] == u {
        return p;
      }
      p := p + 1;
    }
    return NPOS;
  }

  /** find_last as written: p runs from length() - substr.length() down to
      1 and position p - 1 is tried, so again the last possible position is
      never examined. */
  method FindLast(s: Str, sub: Str) returns (r: u64)
    requires Length(s) < NPOS
    ensures Length(sub) > Length(s) ==> r == NPOS
    ensures Length(sub) <= Length(s) ==> r == LastBelow(Text(s), Text(sub), Length(s) - Length(sub))
  {
    var ourLen := Length(s);
    var subLen := Length(sub);
    if subLen > ourLen {
      return NPOS;
    }
    ghost var t := Text(s);
    var u := Text(sub);
    var p: nat := ourLen - subLen;
    while p > 0
      invariant p <= ourLen - subLen
      invariant LastBelow(t, u, ourLen - subLen) == LastBelow(t, u, p)
    {
      LastBelowStep(s, u, p);
      if s.buffer[p - 1..p - 1 + subLen] == u {
        return p - 1;
      }
      p := p - 1;
    }
    return NPOS;
  }

  /** "a".find("a") is npos although "a" occurs at 0, and likewise for
      find_last. */
  lemma FindMissesLastPosition()
    ensures var a := FromText(['a']);
      FirstIn(Text(a), Text(a), 0, Length(a) - Length(a)) == NPOS &&
      LastBelow(Text(a), Text(a), Length(a) - Length(a)) == NPOS &&
      OccursAt(Text(a), Text(a), 0)
  {
    FromTextText(['a']);
  }

  /** find with the bound that tries every position, p <= length() - substr.length(). */
  method FindCorrected(s: Str, sub: Str) returns (r: u64)
    requires Length(s) + 1 < NPOS
    ensures r != NPOS ==> OccursAt(Text(s), Text(sub), r) && forall q :: 0 <= q < r ==> !OccursAt(Text(s), Text(sub), q)
    ensures r == NPOS <==> forall q :: 0 <= q <= Length(s) ==> !OccursAt(Text(s), Text(sub), q)
  {
    var ourLen := Length(s);
    var subLen := Length(sub);
    ghost var t := Text(s);
    var u := Text(sub);
    if subLen > ourLen {
      return NPOS;
    }
    var p := 0;
    while p <= ourLen - subLen
      invariant p <= ourLen - subLen + 1
      invariant forall q :: 0 <= q < p ==> !OccursAt(t, u, q)
    {
      Window(s, u, p);
      if s.buffer[p..p + subLen] == u {
        assert OccursAt(t, u, p);
        return p;
      }
      p := p + 1;
    }
    return NPOS;
  }

  /** find_last with the loop starting one position later. */
  method FindLastCorrected(s: Str, sub: Str) returns (r: u64)
    requires Length(s) + 1 < NPOS
    ensures r != NPOS ==> OccursAt(Text(s), Text(sub), r) && forall q :: r < q <= Length(s) ==> !OccursAt(Text(s), Text(sub), q)
    ensures r == NPOS <==> forall q :: 0 <= q <= Length(s) ==> !OccursAt(Text(s), Text(sub), q)
  {
    var ourLen := Length(s);
    var subLen := Length(sub);
    ghost var t := Text(s);
    var u := Text(sub);
    if subLen > ourLen {
      return NPOS;
    }
    var p: nat := ourLen - subLen + 1;
    while p > 0
      invariant p <= ourLen - subLen + 1
      invariant forall q :: p <= q <= ourLen ==> !OccursAt(t, u, q)
    {
      Window(s, u, p - 1);
      if s.buffer[p - 1..p - 1 + subLen] == u {
        assert OccursAt(t, u, p - 1);
        return p - 1;
      }
      p := p - 1;
    }
    return NPOS;
  }
}
