// The AML decoder (kernel/src/acpi/aml.c): package lengths, name strings and term
// lists (ACPI Specification 6.5, sections 20.2.2, 20.2.4 and 20.2.5), over the
// bytes of a table; a read past the last byte counts as a failure.
module Aml {
  import opened Words

  type Byte = x: int | 0 <= x < 256

  // ------------------------------------------------------------ package lengths

  datatype Pkg = Pkg(length: nat, count: nat)

  // The place value of byte i of a package length.
  function Weight(i: int): int {
    if i == 1 then 16 else if i == 2 then 0x1000 else 0x10_0000
  }

  // Bytes i to count - 1 of a package length that starts at byte at.
  function Tail(bytes: seq<Byte>, at: nat, i: nat, count: nat): nat
    requires 1 <= i <= count <= 4 && at + count <= |bytes|
    decreases count - i
  {
    if i == count then 0 else bytes[at + i] * Weight(i) + Tail(bytes, at, i + 1, count)
  }

  function PkgAt(bytes: seq<Byte>, at: nat): Option<Pkg> {
    if at >= |bytes| then None
    else
      var count := bytes[at] / 64 + 1;
      if at + count > |bytes| then None
      else if count == 1 then Some(Pkg(bytes[at] % 64, 1))
      else Some(Pkg(bytes[at] % 16 + Tail(bytes, at, 1, count), count))
  }

  // A byte is or-ed into bits that are still clear, which adds it.
  lemma OrIsAdd(length: nat, b: Byte, i: int)
    requires 1 <= i <= 3 && length < Weight(i)
    ensures Or(length, b * Weight(i)) == length + b * Weight(i) < 256 * Weight(i)
  {
    PowersOf16();
    MultipleOf(Weight(i), b);
    OrAdds(b * Weight(i), length, if i == 1 then 4 else if i == 2 then 12 else 20);
  }

  const PKG_LIMIT: int := 0x1000_0000

  // The encoding of section 20.2.4.
  function EncodedLength(n: nat): seq<Byte>
    requires n < PKG_LIMIT
  {
    if n < 64 then [n]
    else if n < 0x1000 then [64 + n % 16, n / 16]
    else if n < 0x10_0000 then [128 + n % 16, n / 16 % 256, n / 0x1000]
    else [192 + n % 16, n / 16 % 256, n / 0x1000 % 256, n / 0x10_0000]
  }

  // Decoding inverts the encoding, and reads exactly the encoding's bytes.
  lemma PkgRoundTrip(n: nat, rest: seq<Byte>)
    requires n < PKG_LIMIT
    ensures PkgAt(EncodedLength(n) + rest, 0) == Some(Pkg(n, |EncodedLength(n)|))
  {
    hide EncodedLength;
    var bytes := EncodedLength(n) + rest;
    EncodedBytes(n, rest);
    Tails(bytes, |EncodedLength(n)|);
  }

  lemma EncodedBytes(n: nat, rest: seq<Byte>)
    requires n < PKG_LIMIT
    ensures var e := EncodedLength(n);
            var bytes := e + rest;
            && 1 <= |e| <= 4 && bytes[0] / 64 + 1 == |e|
            && (|e| == 1 ==> n == bytes[0] % 64)
            && (|e| == 2 ==> n == bytes[0] % 16 + bytes[1] * Weight(1))
            && (|e| == 3 ==> n == bytes[0] % 16 + bytes[1] * Weight(1) + bytes[2] * Weight(2))
            && (|e| == 4 ==> n == bytes[0] % 16 + bytes[1] * Weight(1) + bytes[2] * Weight(2) + bytes[3] * Weight(3))
  {
    var e := EncodedLength(n);
    var bytes := e + rest;
    assert bytes[..|e|] == e;
    Parts(n);
  }

  lemma Parts(n: nat)
    ensures n == n % 16 + n / 16 * 16
    ensures n / 16 == n / 16 % 256 + n / 0x1000 * 256
    ensures n / 0x1000 == n / 0x1000 % 256 + n / 0x10_0000 * 256
  {
  }

  lemma Tails(bytes: seq<Byte>, count: nat)
    requires 1 <= count <= 4 && count <= |bytes|
    ensures count == 2 ==> Tail(bytes, 0, 1, 2) == bytes[1] * Weight(1)
    ensures count == 3 ==> Tail(bytes, 0, 1, 3) == bytes[1] * Weight(1) + bytes[2] * Weight(2)
    ensures count == 4 ==> Tail(bytes, 0, 1, 4) == bytes[1] * Weight(1) + bytes[2] * Weight(2) + bytes[3] * Weight(3)
  {
    if count >= 3 {
      assert Tail(bytes, 0, 2, count) == bytes[2] * Weight(2) + Tail(bytes, 0, 3, count);
    }
  }

  // Every decoded length is below 2^28.
  lemma PkgBounded(bytes: seq<Byte>, at: nat)
    ensures PkgAt(bytes, at).Some? ==> PkgAt(bytes, at).value.length < PKG_LIMIT
    ensures PkgAt(bytes, at).Some? ==>
              1 <= PkgAt(bytes, at).value.count <= 4 && at + PkgAt(bytes, at).value.count <= |bytes|
  {
    if PkgAt(bytes, at).Some? {
      var count := bytes[at] / 64 + 1;
      if count == 4 {
        assert Tail(bytes, at, 4, 4) == 0 && Tail(bytes, at, 3, 4) < 0x1000_0000;
        assert Tail(bytes, at, 2, 4) <= 255 * 0x1000 + 255 * 0x10_0000;
      } else if count == 3 {
        assert Tail(bytes, at, 3, 3) == 0 && Tail(bytes, at, 2, 3) <= 255 * 0x1000;
      }
    }
  }

  // acpi_amlParsePkgLength
  method ParsePkgLength(bytes: seq<Byte>, at: nat) returns (r: Option<Pkg>)
    ensures r == PkgAt(bytes, at)
  {
    if at >= |bytes| {
      return None;
    }
    var lead := bytes[at];
    var count := lead / 64 + 1;
    if at + count > |bytes| {
      return None;
    }
    if count == 1 {
      return Some(Pkg(lead % 64, count));
    }
    var length: nat := lead % 16;
    var i := 1;
    while i < count
      invariant 1 <= i <= count && (i < count ==> length < Weight(i))
      invariant length + Tail(bytes, at, i, count) == lead % 16 + Tail(bytes, at, 1, count)
    {
      OrIsAdd(length, bytes[at + i], i);
      length := Or(length, bytes[at + i] * Weight(i));
      i := i + 1;
    }
    return Some(Pkg(length, count));
  }

  // ------------------------------------------------------------- name segments

  const UNDERSCORE: Byte := 0x5f
  const DOT: Byte := 0x2e

  // A segment without its padding.
  function Strip(s: seq<Byte>): (r: seq<Byte>)
    ensures |r| <= |s| && r == s[..|r|]
    ensures forall i :: |r| <= i < |s| ==> s[i] == UNDERSCORE
    ensures r != [] ==> r[|r| - 1] != UNDERSCORE
  {
    if s != [] && s[|s| - 1] == UNDERSCORE then Strip(s[..|s| - 1]) else s
  }

  // A segment with its padding.
  function Pad(s: seq<Byte>): seq<Byte>
    decreases 4 - |s|
  {
    if |s| >= 4 then s else Pad(s + [0x5f])
  }

  lemma {:induction false} PadIs(s: seq<Byte>, t: seq<Byte>)
    requires |t| == 4 && |s| <= 4 && s == t[..|s|]
    requires forall i :: |s| <= i < 4 ==> t[i] == UNDERSCORE
    ensures Pad(s) == t
    decreases 4 - |s|
  {
    if |s| < 4 {
      PadIs(s + [UNDERSCORE], t);
    }
  }

  // Padding a stripped segment gives its four bytes back, and stripping a padded
  // one gives the segment back unless it ends in an underscore.
  lemma StripPad(s: seq<Byte>)
    ensures |s| == 4 ==> Pad(Strip(s)) == s
    ensures |s| <= 4 ==> |Pad(s)| == 4 && (Strip(Pad(s)) == s <==> s == [] || s[|s| - 1] != 0x5f)
  {
    if |s| == 4 {
      PadIs(Strip(s), s);
    }
    if |s| <= 4 {
      var t := s + seq(4 - |s|, i => UNDERSCORE);
      PadIs(s, t);
      StripSame(s, t);
    }
  }

  lemma StripSame(s: seq<Byte>, t: seq<Byte>)
    requires |s| <= |t| && s == t[..|s|] && forall i :: |s| <= i < |t| ==> t[i] == UNDERSCORE
    ensures s == [] || s[|s| - 1] != UNDERSCORE ==> Strip(t) == s
  {
    if s == [] || s[|s| - 1] != UNDERSCORE {
      var r := Strip(t);
      assert |r| > |s| ==> r[|r| - 1] == t[|r| - 1];
      assert s != [] ==> t[|s| - 1] == s[|s| - 1];
    }
  }

  // acpi_amlParseNameSeg. None: its first store, of the last byte, is already
  // behind the caller's buffer; the method stops there.
  method ParseNameSeg(bytes: seq<Byte>, at: nat, name: array<Byte>, base: nat) returns (r: Option<nat>)
    requires at + 4 <= |bytes| && base <= name.Length
    modifies name
    ensures r.Some? <==> base + |Strip(bytes[at..at + 4])| <= name.Length
    ensures r.Some? ==> r.value == |Strip(bytes[at..at + 4])| && name[base..base + r.value] == Strip(bytes[at..at + 4])
    ensures forall i :: 0 <= i < name.Length && !(r.Some? && base <= i < base + r.value) ==> name[i] == old(name[i])
  {
    ghost var s := bytes[at..at + 4];
    var isSuffix := true;
    var length := 0;
    var offset := 3;
    assert s[..4] == s;
    while offset >= 0
      invariant -1 <= offset <= 3
      invariant isSuffix ==> length == 0 && Strip(s) == Strip(s[..offset + 1])
      invariant !isSuffix ==> offset < length <= 4 && Strip(s) == s[..length] && base + length <= name.Length
      invariant forall i :: offset < i < length ==> name[base + i] == s[i]
      invariant forall i :: 0 <= i < name.Length && !(base <= i < base + length) ==> name[i] == old(name[i])
    {
      if isSuffix && bytes[at + offset] != UNDERSCORE {
        isSuffix := false;
        length := offset + 1;
      }
      assert s[..offset + 1][offset] == bytes[at + offset] && s[..offset + 1][..offset] == s[..offset];
      if !isSuffix {
        if base + offset >= name.Length {
          return None;
        }
        name[base + offset] := bytes[at + offset];
      }
      offset := offset - 1;
    }
    return Some(length);
  }

  // --------------------------------------------------------------- name strings

  // The name written out and the bytes read; or what was written before a byte
  // that no name can have there, or before the table's end.
  datatype NameResult = Named(text: seq<Byte>, consumed: nat) | Unnamed(text: seq<Byte>)

  function Behind(text: seq<Byte>, consumed: nat, r: NameResult): NameResult {
    match r
    case Named(t, n) => Named(text + t, consumed + n)
    case Unnamed(t) => Unnamed(text + t)
  }

  // n segments, joined by dots.
  function Segments(bytes: seq<Byte>, at: nat, n: nat, first: bool): NameResult
    decreases n
  {
    var dot := if first then [] else [DOT];
    if n == 0 then Named([], 0)
    else if at + 4 > |bytes| then Unnamed(dot)
    else Behind(dot + Strip(bytes[at..at + 4]), 4, Segments(bytes, at + 4, n - 1, false))
  }

  predicate IsPrefix(b: Byte) {
    b == 0x5c || b == 0x5e
  }

  predicate StartsSegment(b: Byte) {
    0x41 <= b <= 0x5a || b == UNDERSCORE
  }

  function PathAt(bytes: seq<Byte>, at: nat): NameResult {
    if at >= |bytes| then Unnamed([])
    else if bytes[at] == 0 then Named([], 1)
    else if bytes[at] == 0x2e then Behind([], 1, Segments(bytes, at + 1, 2, true))
    else if bytes[at] == 0x2f then
      if at + 1 >= |bytes| then Unnamed([]) else Behind([], 2, Segments(bytes, at + 2, bytes[at + 1], true))
    else if StartsSegment(bytes[at]) then Segments(bytes, at, 1, true)
    else Unnamed([])
  }

  function NameAt(bytes: seq<Byte>, at: nat): NameResult
    decreases |bytes| - at
  {
    if at < |bytes| && IsPrefix(bytes[at]) then Behind([bytes[at]], 1, NameAt(bytes, at + 1)) else PathAt(bytes, at)
  }

  lemma BehindTwice(t: seq<Byte>, m: nat, u: seq<Byte>, n: nat, r: NameResult)
    ensures Behind(t, m, Behind(u, n, r)) == Behind(t + u, m + n, r)
  {
    assert r.Named? ==> t + (u + r.text) == t + u + r.text;
    assert r.Unnamed? ==> t + (u + r.text) == t + u + r.text;
  }

  lemma {:induction false} SegmentsInside(bytes: seq<Byte>, at: nat, n: nat, first: bool)
    ensures var r := Segments(bytes, at, n, first);
            r.Named? ==> r.consumed == 4 * n && (n > 0 ==> at + r.consumed <= |bytes|)
    decreases n
  {
    if n > 0 && at + 4 <= |bytes| {
      SegmentsInside(bytes, at + 4, n - 1, false);
    }
  }

  // A name takes at least one byte, and none past the table's end.
  lemma {:induction false} NameInside(bytes: seq<Byte>, at: nat)
    ensures var r := NameAt(bytes, at); r.Named? ==> r.consumed >= 1 && at + r.consumed <= |bytes|
    decreases |bytes| - at
  {
    if at < |bytes| {
      if IsPrefix(bytes[at]) {
        NameInside(bytes, at + 1);
      } else {
        SegmentsInside(bytes, at + 1, 2, true);
        SegmentsInside(bytes, at, 1, true);
        if at + 1 < |bytes| {
          SegmentsInside(bytes, at + 2, bytes[at + 1], true);
        }
      }
    }
  }

  lemma SegmentsStep(bytes: seq<Byte>, at: nat, n: nat, k: nat, text: seq<Byte>)
    requires k < n && at + 4 * k + 4 <= |bytes|
    requires Segments(bytes, at, n, true) == Behind(text, 4 * k, Segments(bytes, at + 4 * k, n - k, k == 0))
    ensures var more := text + (if k == 0 then [] else [DOT]) + Strip(bytes[at + 4 * k..at + 4 * k + 4]);
            && Segments(bytes, at, n, true) ==
               Behind(more, 4 * (k + 1), Segments(bytes, at + 4 * (k + 1), n - (k + 1), false))
            && |more| <= |Segments(bytes, at, n, true).text|
  {
    var part := (if k == 0 then [] else [DOT]) + Strip(bytes[at + 4 * k..at + 4 * k + 4]);
    BehindTwice(text, 4 * k, part, 4, Segments(bytes, at + 4 * k + 4, n - k - 1, false));
    assert text + (if k == 0 then [] else [DOT]) + Strip(bytes[at + 4 * k..at + 4 * k + 4]) == text + part;
  }

  // How reading an object ends. Overrun: a store behind the end of the name
  // buffer, where the methods stop; the C code has no check and goes on.
  datatype Result<T> = Success(value: T) | Failure | Overrun

  // One turn of the segment loops: a dot between segments, and the segment.
  method PutSegment(bytes: seq<Byte>, place: nat, dotted: bool, name: array<Byte>, at: nat) returns (r: Option<nat>)
    requires place + 4 <= |bytes| && at <= name.Length
    modifies name
    ensures r.Some? <==> at + (if dotted then 1 else 0) + |Strip(bytes[place..place + 4])| <= name.Length
    ensures r.Some? ==>
              && at <= r.value <= name.Length
              && name[at..r.value] == (if dotted then [DOT] else []) + Strip(bytes[place..place + 4])
    ensures name[..at] == old(name[..at])
  {
    hide Strip;
    var end := at;
    if dotted {
      if end >= name.Length {
        return None;
      }
      name[end] := DOT;
      end := end + 1;
    }
    var length := ParseNameSeg(bytes, place, name, end);
    if length.None? {
      return None;
    }
    return Some(end + length.value);
  }

  lemma SliceGrows(before: seq<Byte>, after: seq<Byte>, base: nat, at: nat, end: nat)
    requires base <= at <= end <= |after| == |before| && after[..at] == before[..at]
    ensures after[base..end] == before[base..at] + after[at..end] && after[..base] == before[..base]
  {
    assert forall i :: 0 <= i < at ==> after[i] == after[..at][i] && before[i] == before[..at][i];
  }

  // The segment loops of acpi_amlParseNameString.
  method ParseSegments(bytes: seq<Byte>, at: nat, n: nat, name: array<Byte>, base: nat) returns (r: Result<nat>)
    requires base <= name.Length
    modifies name
    ensures r.Overrun? <==> base + |Segments(bytes, at, n, true).text| > name.Length
    ensures !r.Overrun? ==> (r.Success? <==> Segments(bytes, at, n, true).Named?)
    ensures r.Success? ==>
              base + r.value <= name.Length && name[base..base + r.value] == Segments(bytes, at, n, true).text
    ensures name[..base] == old(name[..base])
  {
    hide Segments, Strip, Behind;
    ghost var all := Segments(bytes, at, n, true);
    var index, length := 0, 0;
    NothingBehind(all);
    assert name[base..base] == [];
    while index < n
      invariant 0 <= index <= n && 0 <= length && base + length <= name.Length
      invariant all ==
                Behind(name[base..base + length], 4 * index, Segments(bytes, at + 4 * index, n - index, index == 0))
      invariant name[..base] == old(name[..base])
    {
      ghost var before := name[..];
      var place := at + 4 * index;
      if place + 4 > |bytes| {
        SegmentsEnd(bytes, place, n - index, index == 0);
        BehindText(name[base..base + length], 4 * index, Segments(bytes, place, n - index, index == 0));
        if index > 0 {
          if base + length >= name.Length {
            return Overrun;
          }
          name[base + length] := DOT;
        }
        return Failure;
      }
      SegmentsStep(bytes, at, n, index, name[base..base + length]);
      ghost var dot, part := if index == 0 then [] else [DOT], Strip(bytes[place..place + 4]);
      assert name[base..base + length] + (dot + part) == name[base..base + length] + dot + part;
      var end := PutSegment(bytes, place, index > 0, name, base + length);
      if end.None? {
        return Overrun;
      }
      SliceGrows(before, name[..], base, base + length, end.value);
      length := end.value - base;
      index := index + 1;
    }
    SegmentsDone(bytes, at + 4 * n, index == 0);
    BehindText(name[base..base + length], 4 * n, Named([], 0));
    return Success(length);
  }

  lemma BehindText(text: seq<Byte>, n: nat, r: NameResult)
    ensures var t := Behind(text, n, r);
            t.Named? == r.Named? && |t.text| == |text| + |r.text| && (r.text == [] ==> t.text == text)
  {
  }

  lemma NothingBehind(r: NameResult)
    ensures r == Behind([], 0, r)
  {
    assert [] + r.text == r.text;
  }

  lemma SegmentsEnd(bytes: seq<Byte>, at: nat, n: nat, first: bool)
    requires n > 0 && at + 4 > |bytes|
    ensures Segments(bytes, at, n, first) == Unnamed(if first then [] else [DOT])
  {
  }

  lemma SegmentsDone(bytes: seq<Byte>, at: nat, first: bool)
    ensures Segments(bytes, at, 0, first) == Named([], 0)
  {
  }

  function TextAndBytes(r: Result<nat>, consumed: nat): Result<(nat, nat)> {
    match r
    case Success(n) => Success((n, consumed))
    case Failure => Failure
    case Overrun => Overrun
  }

  // What acpi_amlParseNameString does after the prefixes.
  method ParsePath(bytes: seq<Byte>, at: nat, name: array<Byte>, base: nat) returns (r: Result<(nat, nat)>)
    requires base <= name.Length
    modifies name
    ensures base + |PathAt(bytes, at).text| > name.Length ==> r.Overrun?
    ensures r.Overrun? ==> base + |PathAt(bytes, at).text| + (if PathAt(bytes, at).Named? then 1 else 0) > name.Length
    ensures !r.Overrun? ==> (r.Success? <==> PathAt(bytes, at).Named?)
    ensures r.Success? ==>
              && r.value.1 == PathAt(bytes, at).consumed && base + r.value.0 <= name.Length
              && name[base..base + r.value.0] == PathAt(bytes, at).text
    ensures name[..base] == old(name[..base])
  {
    hide Segments;
    if at >= |bytes| {
      return Failure;
    }
    var length: Result<nat>;
    if bytes[at] == 0 {
      if base >= name.Length {
        return Overrun;
      }
      name[base] := 0;
      return Success((0, 1));
    } else if bytes[at] == 0x2e {
      length := ParseSegments(bytes, at + 1, 2, name, base);
      SegmentsInside(bytes, at + 1, 2, true);
      return TextAndBytes(length, 9);
    } else if bytes[at] == 0x2f {
      if at + 1 >= |bytes| {
        return Failure;
      }
      var count: nat := bytes[at + 1];
      length := ParseSegments(bytes, at + 2, count, name, base);
      SegmentsInside(bytes, at + 2, count, true);
      return TextAndBytes(length, 2 + 4 * count);
    } else if StartsSegment(bytes[at]) {
      length := ParseSegments(bytes, at, 1, name, base);
      SegmentsInside(bytes, at, 1, true);
      return TextAndBytes(length, 4);
    } else {
      return Failure;
    }
  }

  // Reading a name into a buffer with the given room: the text and its NUL must
  // fit; of a name that fails, what is written before.
  function NameRead(bytes: seq<Byte>, at: nat, room: nat): Result<nat> {
    match NameAt(bytes, at)
    case Named(text, consumed) => if |text| < room then Success(consumed) else Overrun
    case Unnamed(text) => if |text| <= room then Failure else Overrun
  }

  // acpi_amlParseNameString: the name, NUL-terminated, and the bytes it took.
  method ParseNameString(bytes: seq<Byte>, at: nat, name: array<Byte>) returns (r: Result<nat>)
    modifies name
    ensures r == NameRead(bytes, at, name.Length)
    ensures r.Success? ==>
              var text := NameAt(bytes, at).text; name[..|text|] == text && name[|text|] == 0
  {
    hide PathAt, Behind;
    ghost var all := NameAt(bytes, at);
    var length, offset := 0, 0;
    NothingBehind(all);
    assert name[..0] == [];
    while at + offset < |bytes| && IsPrefix(bytes[at + offset])
      invariant length == offset && length <= name.Length
      invariant all == Behind(name[..length], offset, NameAt(bytes, at + offset))
      decreases |bytes| - offset
    {
      ghost var b := bytes[at + offset];
      BehindTwice(name[..length], offset, [b], 1, NameAt(bytes, at + offset + 1));
      BehindText(name[..length] + [b], offset + 1, NameAt(bytes, at + offset + 1));
      if length >= name.Length {
        return Overrun;
      }
      name[length] := bytes[at + offset];
      length := length + 1;
      assert name[..length] == name[..length - 1] + [b];
      offset := offset + 1;
    }
    BehindText(name[..length], offset, PathAt(bytes, at + offset));
    ghost var prefixes := name[..length];
    var path := ParsePath(bytes, at + offset, name, length);
    if path.Overrun? {
      return Overrun;
    }
    if path.Failure? {
      return Failure;
    }
    var end := length + path.value.0;
    BehindPath(prefixes, offset, PathAt(bytes, at + offset));
    assert name[..end] == name[..length] + name[length..end];
    if end >= name.Length {
      return Overrun;
    }
    name[end] := 0;
    assert name[..end] == all.text;
    return Success(offset + path.value.1);
  }

  lemma BehindPath(text: seq<Byte>, n: nat, r: NameResult)
    requires r.Named?
    ensures Behind(text, n, r) == Named(text + r.text, n + r.consumed)
  {
  }

  // --------------------------------------------------------- which names parse

  // What a name can start with behind its prefixes: the null name, a dual or a
  // multi name prefix, or the first character of a segment.
  predicate StartsPath(b: Byte) {
    b == 0 || b == 0x2e || b == 0x2f || 0x41 <= b <= 0x5a || b == 0x5f
  }

  // The bytes that such a name takes.
  function PathLength(bytes: seq<Byte>, at: nat): nat
    requires at < |bytes|
  {
    if bytes[at] == 0 then 1
    else if bytes[at] == 0x2e then 9
    else if bytes[at] == 0x2f then 2 + (if at + 1 < |bytes| then 4 * (bytes[at + 1] as nat) else 0)
    else 4
  }

  lemma {:induction false} SegmentsNamed(bytes: seq<Byte>, at: nat, n: nat, first: bool)
    ensures Segments(bytes, at, n, first).Named? <==> n == 0 || at + 4 * n <= |bytes|
    decreases n
  {
    if n > 0 && at + 4 <= |bytes| {
      SegmentsNamed(bytes, at + 4, n - 1, false);
    }
  }

  // Behind k backslashes and carets a name parses exactly when one starts there
  // and the table does not end too soon.
  lemma {:induction false} NamedExactly(bytes: seq<Byte>, at: nat, k: nat)
    requires at + k <= |bytes| && forall i :: at <= i < at + k ==> bytes[i] == 0x5c || bytes[i] == 0x5e
    requires at + k < |bytes| ==> bytes[at + k] != 0x5c && bytes[at + k] != 0x5e
    ensures NameAt(bytes, at).Named? <==>
              at + k < |bytes| && StartsPath(bytes[at + k]) && at + k + PathLength(bytes, at + k) <= |bytes|
    decreases k
  {
    if k > 0 {
      NamedExactly(bytes, at + 1, k - 1);
    } else if at < |bytes| {
      SegmentsNamed(bytes, at + 1, 2, true);
      SegmentsNamed(bytes, at, 1, true);
      if at + 1 < |bytes| {
        SegmentsNamed(bytes, at + 2, bytes[at + 1], true);
      }
    }
  }

  // ------------------------------------------------------------ encoding a name

  // A segment as it stands in a path: at most four bytes, not padded, and first
  // a letter or an underscore; the four underscores are an empty one.
  predicate IsSegment(s: seq<Byte>) {
    |s| <= 4 && (s != [] ==> (0x41 <= s[0] <= 0x5a || s[0] == 0x5f) && s[|s| - 1] != 0x5f)
  }

  function Joined(segments: seq<seq<Byte>>, first: bool): seq<Byte> {
    if segments == [] then [] else (if first then [] else [0x2e]) + segments[0] + Joined(segments[1..], false)
  }

  function Padded(segments: seq<seq<Byte>>): seq<Byte> {
    if segments == [] then [] else Pad(segments[0]) + Padded(segments[1..])
  }

  function EncodedPath(segments: seq<seq<Byte>>): seq<Byte>
    requires |segments| < 256
  {
    if |segments| == 0 then [0]
    else if |segments| == 1 then Padded(segments)
    else if |segments| == 2 then [0x2e] + Padded(segments)
    else [0x2f, |segments|] + Padded(segments)
  }

  lemma {:induction false} SegmentsRoundTrip(before: seq<Byte>, segments: seq<seq<Byte>>, rest: seq<Byte>, first: bool)
    requires forall s :: s in segments ==> IsSegment(s)
    ensures Segments(before + Padded(segments) + rest, |before|, |segments|, first) ==
            Named(Joined(segments, first), 4 * |segments|)
    ensures |Padded(segments)| == 4 * |segments|
    decreases |segments|
  {
    hide Strip, Pad;
    if segments != [] {
      var s, u := segments[0], Padded(segments[1..]);
      assert s in segments;
      StripPad(s);
      SegmentBytes(before, Pad(s), u, rest);
      SegmentsRoundTrip(before + Pad(s), segments[1..], rest, false);
    }
  }

  lemma SegmentBytes(before: seq<Byte>, p: seq<Byte>, u: seq<Byte>, rest: seq<Byte>)
    requires |p| == 4
    ensures var bytes := before + (p + u) + rest;
            bytes == before + p + u + rest && |bytes| >= |before| + 4 && bytes[|before|..|before| + 4] == p
  {
  }

  lemma PathRoundTrip(before: seq<Byte>, segments: seq<seq<Byte>>, rest: seq<Byte>)
    requires |segments| < 256 && forall s :: s in segments ==> IsSegment(s)
    ensures PathAt(before + EncodedPath(segments) + rest, |before|) ==
            Named(Joined(segments, true), |EncodedPath(segments)|)
    ensures |EncodedPath(segments)| > 0 && !IsPrefix((before + EncodedPath(segments) + rest)[|before|])
  {
    hide Segments, Joined, Padded, IsSegment;
    var bytes := before + EncodedPath(segments) + rest;
    if |segments| == 0 {
      NoSegments();
    } else if |segments| == 1 {
      SegmentsRoundTrip(before, segments, rest, true);
      FirstByte(segments);
      assert bytes[|before|] == Padded(segments)[0];
    } else {
      var marker := if |segments| == 2 then [0x2e] else [0x2f, |segments|];
      SegmentsRoundTrip(before + marker, segments, rest, true);
      MarkedBytes(before, marker, Padded(segments), rest);
    }
  }

  lemma MarkedBytes(before: seq<Byte>, marker: seq<Byte>, u: seq<Byte>, rest: seq<Byte>)
    requires marker != []
    ensures var bytes := before + (marker + u) + rest;
            && bytes == before + marker + u + rest
            && forall i :: 0 <= i < |marker| ==> bytes[|before| + i] == marker[i]
  {
  }

  lemma NoSegments()
    ensures Joined([], true) == []
  {
  }

  lemma FirstByte(segments: seq<seq<Byte>>)
    requires |segments| == 1 && IsSegment(segments[0])
    ensures |Padded(segments)| == 4 && StartsSegment(Padded(segments)[0])
  {
    var s := segments[0];
    StripPad(s);
    assert Padded(segments) == Pad(s) + Padded(segments[1..]);
    assert Padded(segments[1..]) == [];
    PadKeeps(s);
    if s == [] {
      StripPad(Pad(s));
    }
  }

  lemma {:induction false} PadKeeps(s: seq<Byte>)
    requires |s| <= 4
    ensures |Pad(s)| == 4 && Pad(s)[..|s|] == s && forall i :: |s| <= i < 4 ==> Pad(s)[i] == UNDERSCORE
    decreases 4 - |s|
  {
    if |s| < 4 {
      PadKeeps(s + [UNDERSCORE]);
      assert Pad(s)[..|s|] == (s + [UNDERSCORE])[..|s|];
    }
  }

  // Parsing the encoding of a name gives back its prefixes and its dot-joined
  // segments, and reads exactly the encoding's bytes.
  lemma {:induction false} NameRoundTrip(before: seq<Byte>, prefixes: seq<Byte>, segments: seq<seq<Byte>>,
                                         rest: seq<Byte>)
    requires forall b :: b in prefixes ==> b == 0x5c || b == 0x5e
    requires |segments| < 256 && forall s :: s in segments ==> IsSegment(s)
    ensures NameAt(before + prefixes + EncodedPath(segments) + rest, |before|) ==
            Named(prefixes + Joined(segments, true), |prefixes| + |EncodedPath(segments)|)
    decreases |prefixes|
  {
    hide EncodedPath, Joined, PathAt;
    var bytes := before + prefixes + EncodedPath(segments) + rest;
    if prefixes == [] {
      PathRoundTrip(before, segments, rest);
      assert before + prefixes + EncodedPath(segments) + rest == before + EncodedPath(segments) + rest;
      assert prefixes + Joined(segments, true) == Joined(segments, true);
    } else {
      var b := prefixes[0];
      assert forall c :: c in prefixes[1..] ==> c in prefixes;
      NameRoundTrip(before + [b], prefixes[1..], segments, rest);
      assert before + [b] + prefixes[1..] + EncodedPath(segments) + rest == bytes;
      assert bytes[|before|] == b && b in prefixes;
      assert [b] + (prefixes[1..] + Joined(segments, true)) == prefixes + Joined(segments, true);
    }
  }

  lemma {:induction false} JoinedShort(segments: seq<seq<Byte>>, first: bool)
    requires forall s :: s in segments ==> IsSegment(s)
    ensures |Joined(segments, first)| <= 5 * |segments| - (if first && segments != [] then 1 else 0)
    decreases |segments|
  {
    if segments != [] {
      assert segments[0] in segments;
      JoinedShort(segments[1..], false);
    }
  }

  const MAX_PATH_LENGTH: int := 256

  // The scope parser's buffer takes every name of at most 51 segments, counting
  // five prefixes as one; a multi name may have up to 255.
  lemma ShortNameFits(before: seq<Byte>, prefixes: seq<Byte>, segments: seq<seq<Byte>>, rest: seq<Byte>)
    requires forall b :: b in prefixes ==> b == 0x5c || b == 0x5e
    requires forall s :: s in segments ==> IsSegment(s)
    requires |prefixes| + 5 * |segments| < 256
    ensures NameRead(before + prefixes + EncodedPath(segments) + rest, |before|, MAX_PATH_LENGTH) ==
            Success(|prefixes| + |EncodedPath(segments)|)
  {
    hide EncodedPath, IsSegment;
    NameRoundTrip(before, prefixes, segments, rest);
    JoinedShort(segments, true);
  }

  // ------------------------------------------------------------------ term lists

  const SCOPE_OP: Byte := 0x10

  // What DefScope reads before its body: the package length and where the body
  // starts.
  datatype Header = Header(pkgLength: nat, body: nat)

  function HeaderAt(bytes: seq<Byte>, at: nat): (h: Result<Header>)
    ensures h.Success? ==> at < h.value.body <= |bytes| && h.value.pkgLength < PKG_LIMIT
  {
    PkgBounded(bytes, at + 1);
    var pkg := PkgAt(bytes, at + 1);
    if pkg.None? then Failure
    else
      NameInside(bytes, at + 1 + pkg.value.count);
      match NameRead(bytes, at + 1 + pkg.value.count, MAX_PATH_LENGTH)
      case Failure => Failure
      case Overrun => Overrun
      case Success(consumed) => Success(Header(pkg.value.length, at + 1 + pkg.value.count + consumed))
  }

  // A scope's name overruns its buffer exactly when the text, and the NUL of a
  // name that parses, are more than 256 bytes.
  lemma OverrunsExactly(bytes: seq<Byte>, at: nat)
    ensures HeaderAt(bytes, at).Overrun? <==>
              && PkgAt(bytes, at + 1).Some?
              && var name := NameAt(bytes, at + 1 + PkgAt(bytes, at + 1).value.count);
                 |name.text| + (if name.Named? then 1 else 0) > 256
  {
    hide PkgAt, NameAt;
  }

  // l_pkgLength - l_offset + 1, with C's wrap-around.
  function BodyLength(h: Header, at: nat): Word
    requires at < h.body
  {
    (h.pkgLength - (h.body - at) + 1) % WORD_LIMIT
  }

  // The body ends where the package does exactly when the package length covers
  // the header; a shorter one wraps to a body of almost 2^64 bytes.
  lemma BodyEndsWithPackage(h: Header, at: nat)
    requires at < h.body < WORD_LIMIT - 1 && h.pkgLength < PKG_LIMIT
    ensures h.body + BodyLength(h, at) == at + 1 + h.pkgLength <==> h.body <= at + 1 + h.pkgLength
    ensures h.body > at + 1 + h.pkgLength ==> BodyLength(h, at) > WORD_LIMIT - h.body
  {
  }

  // A term list from place, with remaining bytes left: the loop takes another
  // object while its offset is at most the length. A failed object fails the
  // list. resolves says at which scopes the namespace lookups and allocations
  // succeed. The value of a list is the C result 0, that of an object its length.
  function TermList(bytes: seq<Byte>, place: nat, remaining: int, resolves: nat -> bool): Result<nat>
    decreases if place <= |bytes| then |bytes| - place else 0, 2, remaining + 1
  {
    if remaining < 0 then Success(0)
    else
      var n := TermObj(bytes, place, resolves);
      if !n.Success? then n else TermList(bytes, place + n.value, remaining - n.value, resolves)
  }

  function TermObj(bytes: seq<Byte>, at: nat, resolves: nat -> bool): (n: Result<nat>)
    ensures n.Success? ==> at < |bytes| && 0 < n.value <= PKG_LIMIT
    decreases if at <= |bytes| then |bytes| - at else 0, 1, 0
  {
    if at < |bytes| && bytes[at] == SCOPE_OP then DefScope(bytes, at, resolves) else Failure
  }

  function DefScope(bytes: seq<Byte>, at: nat, resolves: nat -> bool): (n: Result<nat>)
    requires at < |bytes|
    ensures n.Success? ==> 0 < n.value <= PKG_LIMIT
    decreases |bytes| - at, 0, 0
  {
    var h := HeaderAt(bytes, at);
    if h.Overrun? then Overrun
    else if h.Failure? || !resolves(at) then Failure
    else
      var body := TermList(bytes, h.value.body, BodyLength(h.value, at), resolves);
      if body.Success? then Success(h.value.pkgLength + 1) else body
  }

  // The scopes that are entered, each the first object in the body of the one
  // before, lead to one whose name overruns the buffer.
  ghost predicate MeetsLongName(bytes: seq<Byte>, at: nat, resolves: nat -> bool)
    decreases if at <= |bytes| then |bytes| - at else 0
  {
    && at < |bytes| && bytes[at] == 0x10
    && var h := HeaderAt(bytes, at);
       h.Overrun? || (h.Success? && resolves(at) && MeetsLongName(bytes, h.value.body, resolves))
  }

  // No term list succeeds, whatever the table holds, however long it says it is,
  // and whatever the namespace answers: every list needs at least one object, an
  // object is a scope, and a scope needs a list that starts further on. The list
  // fails unless that chain of scopes meets an overlong name.
  lemma {:induction false} ListNeverSucceeds(bytes: seq<Byte>, place: nat, remaining: int, resolves: nat -> bool)
    requires remaining >= 0
    ensures TermList(bytes, place, remaining, resolves) ==
            if MeetsLongName(bytes, place, resolves) then Overrun else Failure
    decreases if place <= |bytes| then |bytes| - place else 0, 1
  {
    ObjectNeverSucceeds(bytes, place, resolves);
  }

  lemma {:induction false} ObjectNeverSucceeds(bytes: seq<Byte>, at: nat, resolves: nat -> bool)
    ensures TermObj(bytes, at, resolves) == if MeetsLongName(bytes, at, resolves) then Overrun else Failure
    decreases if at <= |bytes| then |bytes| - at else 0, 0
  {
    if at < |bytes| {
      var h := HeaderAt(bytes, at);
      if h.Success? {
        ListNeverSucceeds(bytes, h.value.body, BodyLength(h.value, at), resolves);
      }
    }
  }

  // acpi_amlParseTermList, for a table shorter than 2^63 bytes.
  method ParseTermList(bytes: seq<Byte>, at: nat, length: Word, resolves: nat -> bool) returns (r: Result<nat>)
    requires |bytes| < 0x8000_0000_0000_0000
    ensures r == TermList(bytes, at, length, resolves)
    decreases if at <= |bytes| then |bytes| - at else 0, 2
  {
    var offset: Word := 0;
    while offset <= length
      invariant TermList(bytes, at, length, resolves) == TermList(bytes, at + offset, length - offset, resolves)
      invariant at <= |bytes| ==> at + offset <= |bytes| + PKG_LIMIT
      decreases |bytes| - at - offset
    {
      var n := ParseTermObj(bytes, at + offset, resolves);
      if !n.Success? {
        return n;
      }
      offset := offset + n.value;
    }
    return Success(0);
  }

  // acpi_amlParseTermObj
  method ParseTermObj(bytes: seq<Byte>, at: nat, resolves: nat -> bool) returns (n: Result<nat>)
    requires |bytes| < 0x8000_0000_0000_0000
    ensures n == TermObj(bytes, at, resolves)
    decreases if at <= |bytes| then |bytes| - at else 0, 1
  {
    if at < |bytes| && bytes[at] == SCOPE_OP {
      n := ParseDefScope(bytes, at, resolves);
    } else {
      n := Failure;
    }
  }

  // acpi_amlParseDefScope
  method ParseDefScope(bytes: seq<Byte>, at: nat, resolves: nat -> bool) returns (n: Result<nat>)
    requires |bytes| < 0x8000_0000_0000_0000 && at < |bytes|
    ensures n == DefScope(bytes, at, resolves)
    decreases |bytes| - at, 0
  {
    hide PkgAt, NameAt, NameRead, TermList;
    var offset := 1;
    var pkg := ParsePkgLength(bytes, at + offset);
    if pkg.None? {
      return Failure;
    }
    offset := offset + pkg.value.count;
    var name := new Byte[MAX_PATH_LENGTH];
    var nameLength := ParseNameString(bytes, at + offset, name);
    if !nameLength.Success? {
      return nameLength;
    }
    offset := offset + nameLength.value;
    if !resolves(at) {
      return Failure;
    }
    var body := ParseTermList(bytes, at + offset, (pkg.value.length - offset + 1) % WORD_LIMIT, resolves);
    if !body.Success? {
      return body;
    }
    return Success(pkg.value.length + 1);
  }

  // acpi_parseAml, for a table whose header gives its length: it never returns 0.
  // Its result is -1, unless the chain of first scopes meets an overlong name.
  method ParseAml(bytes: seq<Byte>, tableLength: Word, resolves: nat -> bool) returns (r: Result<int>)
    requires |bytes| < 0x8000_0000_0000_0000
    ensures r == if MeetsLongName(bytes, 0, resolves) then Overrun else Success(-1)
  {
    ListNeverSucceeds(bytes, 0, (tableLength - HEADER_SIZE) % WORD_LIMIT, resolves);
    var list := ParseTermList(bytes, 0, (tableLength - HEADER_SIZE) % WORD_LIMIT, resolves);
    match list
    case Success(_) => r := Success(0);
    case Failure => r := Success(-1);
    case Overrun => r := Overrun;
  }

  // sizeof(struct ts_acpi_sdtHeader)
  const HEADER_SIZE: int := 36
}
