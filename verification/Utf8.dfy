/** The UTF-8 encoder and decoder over bounded buffers, for code units below 0x10000. */
module Utf8 {
  // ------------------------------------------------------------------ encoder

  // One to three bytes in a row.
  datatype Run = One(a: bv8) | Two(a: bv8, b: bv8) | Three(a: bv8, b: bv8, c: bv8)
  {
    function Bytes(): (bs: seq<bv8>)
      ensures 1 <= |bs| <= 3
    {
      match this
      case One(a) => [a]
      case Two(a, b) => [a, b]
      case Three(a, b, c) => [a, b, c]
    }
  }

  // How the encoder writes a unit.
  function Spell(u: bv16): Run {
    if u < 0x80 then One(u as bv8)
    else if u < 0x800 then Two((0xC0 | (u >> 6)) as bv8, (0x80 | (u & 0x3F)) as bv8)
    else Three((0xE0 | (u >> 12)) as bv8, (0x80 | ((u >> 6) & 0x3F)) as bv8, (0x80 | (u & 0x3F)) as bv8)
  }

  function Bytes(u: bv16): (bs: seq<bv8>)
    ensures 1 <= |bs| <= 3
  {
    Spell(u).Bytes()
  }

  // The layouts of RFC 3629, section 3: 0xxxxxxx, 110xxxxx 10xxxxxx, and 1110xxxx 10xxxxxx 10xxxxxx, holding
  // the unit's bits in order.
  predicate IsUtf8(u: bv16, r: Run) {
    match r
    case One(a) => u < 0x80 && a as bv16 == u
    case Two(a, b) =>
      && 0x80 <= u < 0x800 && a & 0xE0 == 0xC0 && b & 0xC0 == 0x80
      && (((a & 0x1F) as bv16) << 6) | ((b & 0x3F) as bv16) == u
    case Three(a, b, c) =>
      && 0x800 <= u && a & 0xF0 == 0xE0 && b & 0xC0 == 0x80 && c & 0xC0 == 0x80
      && (((a & 0x0F) as bv16) << 12) | (((b & 0x3F) as bv16) << 6) | ((c & 0x3F) as bv16) == u
  }

  lemma OneByteIsUtf8(u: bv16)
    requires u < 0x80
    ensures IsUtf8(u, One(u as bv8))
  {
  }

  lemma TwoBytesAreUtf8(u: bv16)
    requires 0x80 <= u < 0x800
    ensures IsUtf8(u, Two((0xC0 | (u >> 6)) as bv8, (0x80 | (u & 0x3F)) as bv8))
  {
    TwoBytes(u);
  }

  lemma ThreeBytesAreUtf8(u: bv16)
    requires 0x800 <= u
    ensures IsUtf8(u, Three((0xE0 | (u >> 12)) as bv8, (0x80 | ((u >> 6) & 0x3F)) as bv8, (0x80 | (u & 0x3F)) as bv8))
  {
  }

  lemma BytesAreUtf8(u: bv16)
    ensures IsUtf8(u, Spell(u))
  {
    if u < 0x80 {
      OneByteIsUtf8(u);
    } else if u < 0x800 {
      TwoBytesAreUtf8(u);
    } else {
      ThreeBytesAreUtf8(u);
    }
  }

  function Encode(units: seq<bv16>): seq<bv8> {
    if units == [] then [] else Bytes(units[0]) + Encode(units[1..])
  }

  lemma {:induction false} EncodeAppends(a: seq<bv16>, b: seq<bv16>)
    ensures Encode(a + b) == Encode(a) + Encode(b)
  {
    if a == [] {
      assert a + b == b;
    } else {
      assert (a + b)[1..] == a[1..] + b;
      EncodeAppends(a[1..], b);
    }
  }

  lemma EncodeOneMore(units: seq<bv16>, n: nat)
    requires n < |units|
    ensures Encode(units[..n + 1]) == Encode(units[..n]) + Bytes(units[n])
  {
    assert units[..n + 1] == units[..n] + [units[n]];
    EncodeAppends(units[..n], [units[n]]);
    assert Encode([units[n]]) == Bytes(units[n]) + [];
  }

  // *to++ = x
  method Put<T>(to: array<T>, at: nat, x: T) returns (next: nat)
    requires at < to.Length
    modifies to
    ensures next == at + 1 && to[..next] == old(to[..at]) + [x] && to[next..] == old(to[next..])
  {
    to[at] := x;
    next := at + 1;
  }

  // The source compares `to` with `to_end - 3`, an address that lies inside it only in a buffer of three bytes or more.
  method DoOut(from: array<bv16>, to: array<bv8>) returns (fromNext: nat, toNext: nat)
    requires to.Length >= 3
    modifies to
    ensures fromNext <= from.Length && toNext <= to.Length
    ensures to[..toNext] == Encode(from[..fromNext]) && to[toNext..] == old(to[toNext..])
    ensures fromNext == from.Length || toNext >= to.Length - 3
  {
    fromNext, toNext := 0, 0;
    while fromNext < from.Length && toNext < to.Length - 3
      invariant fromNext <= from.Length && toNext <= to.Length
      invariant to[..toNext] == Encode(from[..fromNext]) && to[toNext..] == old(to[toNext..])
    {
      var u := from[fromNext];
      EncodeOneMore(from[..], fromNext);
      assert from[..][..fromNext + 1] == from[..fromNext + 1] && from[..][..fromNext] == from[..fromNext];
      toNext := PutUnit(to, toNext, u);
      fromNext := fromNext + 1;
    }
  }

  // The loop's body.
  method PutUnit(to: array<bv8>, at: nat, u: bv16) returns (next: nat)
    requires at + 3 < to.Length
    modifies to
    ensures next == at + |Bytes(u)|
    ensures to[..next] == old(to[..at]) + Bytes(u) && to[next..] == old(to[next..])
  {
    ghost var before, after := to[..at], to[at..];
    if u < 0x80 {
      next := Put(to, at, u as bv8);
    } else if u < 0x800 {
      var a, b := (0xC0 | (u >> 6)) as bv8, (0x80 | (u & 0x3F)) as bv8;
      next := Put(to, at, a);
      assert to[next..] == after[1..];
      next := Put(to, next, b);
      assert to[next..] == after[1..][1..] == after[2..];
      assert (before + [a]) + [b] == before + [a, b];
    } else {
      var a, b, c := (0xE0 | (u >> 12)) as bv8, (0x80 | ((u >> 6) & 0x3F)) as bv8, (0x80 | (u & 0x3F)) as bv8;
      next := Put(to, at, a);
      assert to[next..] == after[1..];
      next := Put(to, next, b);
      assert to[next..] == after[1..][1..] == after[2..];
      next := Put(to, next, c);
      assert to[next..] == after[2..][1..] == after[3..];
      assert ((before + [a]) + [b]) + [c] == before + [a, b, c];
    }
    assert old(to[next..]) == after[next - at..];
  }

  // ------------------------------------------------------------------ decoder

  datatype Step = Unit(unit: bv16, length: nat) | Stop

  predicate Continues(c: bv8) {
    c & 0xC0 == 0x80
  }

  function Join2(c: bv8, c2: bv8): bv16 {
    (((c & 0x1F) as bv16) << 6) | ((c2 & 0x3F) as bv16)
  }

  function Join3(c: bv8, c2: bv8, c3: bv8): bv16 {
    (((c & 0x0F) as bv16) << 12) | (((c2 & 0x3F) as bv16) << 6) | ((c3 & 0x3F) as bv16)
  }

  // The unit at the start of a run of up to three bytes, if there is one the decoder can read.
  function UnitOf(r: Run): (s: Step)
    ensures s.Unit? ==> 0 < s.length <= |r.Bytes()|
  {
    if r.a < 0x80 then Unit(r.a as bv16, 1)
    else if r.a & 0xE0 == 0xC0 && !r.One? then
      if !Continues(r.b) then Stop else Unit(Join2(r.a, r.b), 2)
    else if r.a & 0xF0 == 0xE0 && r.Three? then
      if !Continues(r.b) || !Continues(r.c) then Stop else Unit(Join3(r.a, r.b, r.c), 3)
    else Stop
  }

  predicate LedByTwo(r: Run) {
    !r.One? && r.a & 0xE0 == 0xC0 && r.b & 0xC0 == 0x80
  }

  predicate LedByThree(r: Run) {
    r.Three? && r.a & 0xF0 == 0xE0 && r.b & 0xC0 == 0x80 && r.c & 0xC0 == 0x80
  }

  // The decoder reads exactly the runs that begin with one of the layouts, and stops at any other.
  lemma UnitsExactly(r: Run)
    ensures r.a < 0x80 ==> UnitOf(r) == Unit(r.a as bv16, 1)
    ensures r.a >= 0x80 && LedByTwo(r) ==> UnitOf(r) == Unit((((r.a & 0x1F) as bv16) << 6) | ((r.b & 0x3F) as bv16), 2)
    ensures LedByThree(r) ==>
      UnitOf(r) ==
        Unit((((r.a & 0x0F) as bv16) << 12) | (((r.b & 0x3F) as bv16) << 6) | ((r.c & 0x3F) as bv16), 3)
    ensures UnitOf(r) == Stop <==> r.a >= 0x80 && !LedByTwo(r) && !LedByThree(r)
  {
  }

  // What the decoder can see from i on.
  function Window(bytes: seq<bv8>, i: nat): (r: Run)
    requires i < |bytes|
    ensures i + |r.Bytes()| <= |bytes|
  {
    if i + 2 < |bytes| then Three(bytes[i], bytes[i + 1], bytes[i + 2])
    else if i + 1 < |bytes| then Two(bytes[i], bytes[i + 1])
    else One(bytes[i])
  }

  function UnitAt(bytes: seq<bv8>, i: nat): (s: Step)
    requires i < |bytes|
    ensures s.Unit? ==> 0 < s.length && i + s.length <= |bytes|
  {
    UnitOf(Window(bytes, i))
  }

  datatype Decoded = Decoded(units: seq<bv16>, used: nat)

  // What the decoder makes of the bytes from i on, given room for so many units.
  function DecodeFrom(bytes: seq<bv8>, i: nat, room: nat): (d: Decoded)
    requires i <= |bytes|
    ensures i <= d.used <= |bytes| && |d.units| <= room
    decreases room
  {
    if i == |bytes| || room == 0 then Decoded([], i)
    else match UnitAt(bytes, i)
      case Stop => Decoded([], i)
      case Unit(unit, length) =>
        var rest := DecodeFrom(bytes, i + length, room - 1);
        Decoded([unit] + rest.units, rest.used)
  }

  // Decodes the first `end` bytes of `from`.
  method DoIn(from: array<bv8>, end: nat, to: array<bv16>) returns (fromNext: nat, toNext: nat)
    requires end <= from.Length
    modifies to
    ensures fromNext <= end && toNext <= to.Length
    ensures Decoded(to[..toNext], fromNext) == DecodeFrom(from[..end], 0, to.Length)
    ensures to[toNext..] == old(to[toNext..])
  {
    fromNext, toNext := 0, 0;
    ghost var bytes, goal := from[..end], DecodeFrom(from[..end], 0, to.Length);
    while fromNext < end && toNext < to.Length
      invariant fromNext <= end && toNext <= to.Length && bytes == from[..end]
      invariant DecodedSo(to[..toNext], bytes, fromNext, to.Length - toNext) == goal
      invariant to[toNext..] == old(to[toNext..])
    {
      var unit := DecodeOne(from, end, fromNext, to[..toNext], to.Length - toNext);
      if unit.Stop? {
        break;
      }
      fromNext := fromNext + unit.length;
      toNext := Put(to, toNext, unit.unit);
    }
  }

  // One turn of the loop: it takes a unit from what is left, or leaves nothing to take.
  method DecodeOne(from: array<bv8>, end: nat, i: nat, ghost done: seq<bv16>, ghost room: nat) returns (s: Step)
    requires i < end <= from.Length && room > 0
    ensures s.Stop? ==> DecodedSo(done, from[..end], i, room) == Decoded(done, i)
    ensures s.Unit? ==>
      && 0 < s.length && i + s.length <= end
      && DecodedSo(done, from[..end], i, room) == DecodedSo(done + [s.unit], from[..end], i + s.length, room - 1)
  {
    s := TakeUnit(from, end, i);
    if s.Unit? {
      DecodedOneMore(done, from[..end], i, room);
    } else {
      assert done + [] == done;
    }
  }

  // The branches of the loop's body: the unit read and its length, or where the loop breaks off.
  method TakeUnit(from: array<bv8>, end: nat, i: nat) returns (s: Step)
    requires i < end <= from.Length
    ensures s == UnitAt(from[..end], i)
  {
    var c := from[i];
    if c < 0x80 {
      return Unit(c as bv16, 1);
    } else if c & 0xE0 == 0xC0 && i + 1 < end {
      var c2 := from[i + 1];
      if c2 & 0xC0 != 0x80 {
        return Stop;
      }
      return Unit((((c & 0x1F) as bv16) << 6) | ((c2 & 0x3F) as bv16), 2);
    } else if c & 0xF0 == 0xE0 && i + 2 < end {
      var c2, c3 := from[i + 1], from[i + 2];
      if c2 & 0xC0 != 0x80 || c3 & 0xC0 != 0x80 {
        return Stop;
      }
      return Unit((((c & 0x0F) as bv16) << 12) | (((c2 & 0x3F) as bv16) << 6) | ((c3 & 0x3F) as bv16), 3);
    } else {
      return Stop;
    }
  }

  // The decoder's result when it has written `done` and goes on at i.
  function DecodedSo(done: seq<bv16>, bytes: seq<bv8>, i: nat, room: nat): Decoded
    requires i <= |bytes|
  {
    var rest := DecodeFrom(bytes, i, room);
    Decoded(done + rest.units, rest.used)
  }

  lemma DecodedOneMore(done: seq<bv16>, bytes: seq<bv8>, i: nat, room: nat)
    requires i < |bytes| && room > 0 && UnitAt(bytes, i).Unit?
    ensures var (unit, length) := (UnitAt(bytes, i).unit, UnitAt(bytes, i).length);
      DecodedSo(done, bytes, i, room) == DecodedSo(done + [unit], bytes, i + length, room - 1)
  {
    var unit, length := UnitAt(bytes, i).unit, UnitAt(bytes, i).length;
    var rest := DecodeFrom(bytes, i + length, room - 1).units;
    assert done + ([unit] + rest) == (done + [unit]) + rest;
  }

  // ------------------------------------------------------------------ round trip

  // The run starts with the bytes of another.
  predicate StartsWith(r: Run, s: Run) {
    match s
    case One(a) => r.a == a
    case Two(a, b) => !r.One? && r.a == a && r.b == b
    case Three(_, _, _) => r == s
  }

  lemma SpellingIsAUnit(u: bv16, r: Run)
    requires StartsWith(r, Spell(u))
    ensures UnitOf(r) == Unit(u, |Bytes(u)|)
  {
    if u < 0x80 {
    } else if u < 0x800 {
      TwoBytes(u);
    } else {
      ThreeBytes(u);
    }
  }

  lemma TwoBytes(u: bv16)
    requires 0x80 <= u < 0x800
    ensures var c, d := (0xC0 | (u >> 6)) as bv8, (0x80 | (u & 0x3F)) as bv8;
      c >= 0x80 && c & 0xE0 == 0xC0 && Continues(d) && Join2(c, d) == u
  {
  }

  lemma ThreeBytes(u: bv16)
    requires 0x800 <= u
    ensures var c, d, e := (0xE0 | (u >> 12)) as bv8, (0x80 | ((u >> 6) & 0x3F)) as bv8, (0x80 | (u & 0x3F)) as bv8;
      && c >= 0x80 && c & 0xE0 != 0xC0 && c & 0xF0 == 0xE0 && Continues(d) && Continues(e)
      && Join3(c, d, e) == u
  {
  }

  lemma WindowOf(before: seq<bv8>, r: Run, after: seq<bv8>)
    ensures StartsWith(Window(before + r.Bytes() + after, |before|), r)
  {
    var s, i := before + r.Bytes() + after, |before|;
    assert forall k :: 0 <= k < |r.Bytes()| ==> s[i + k] == r.Bytes()[k];
    assert s[i] == r.Bytes()[0];
    assert !r.One? ==> s[i + 1] == r.Bytes()[1];
    assert r.Three? ==> s[i + 2] == r.Bytes()[2];
  }

  // The bytes of a unit read back as that unit, whatever stands around them.
  lemma BytesAreAUnit(before: seq<bv8>, u: bv16, after: seq<bv8>)
    ensures UnitAt(before + Bytes(u) + after, |before|) == Unit(u, |Bytes(u)|)
  {
    WindowOf(before, Spell(u), after);
    SpellingIsAUnit(u, Window(before + Bytes(u) + after, |before|));
  }

  lemma EncodeFirst(units: seq<bv16>, n: nat)
    requires 0 < n <= |units|
    ensures units[..n] == [units[0]] + units[1..][..n - 1]
    ensures Encode(units[..n]) == Bytes(units[0]) + Encode(units[1..][..n - 1])
  {
    assert units[..n][0] == units[0] && units[..n][1..] == units[1..][..n - 1];
  }

  // With one unit's bytes read, the rest is decoded behind them.
  lemma DecodeFirst(before: seq<bv8>, u: bv16, after: seq<bv8>, room: nat)
    requires room > 0
    ensures var rest := DecodeFrom((before + Bytes(u)) + after, |before + Bytes(u)|, room - 1);
      DecodeFrom((before + Bytes(u)) + after, |before|, room) == Decoded([u] + rest.units, rest.used)
  {
    BytesAreAUnit(before, u, after);
  }

  lemma {:induction false} DecodesBehind(before: seq<bv8>, units: seq<bv16>, room: nat, n: nat)
    requires n <= room && n <= |units| && (n == room || n == |units|)
    ensures DecodeFrom(before + Encode(units), |before|, room) == Decoded(units[..n], |before + Encode(units[..n])|)
    decreases n
  {
    if n > 0 {
      var first, rest := Bytes(units[0]), Encode(units[1..]);
      assert before + (first + rest) == (before + first) + rest;
      DecodeFirst(before, units[0], rest, room);
      DecodesBehind(before + first, units[1..], room - 1, n - 1);
      EncodeFirst(units, n);
    } else {
      assert units[..0] == [] && Encode([]) == [];
      assert room > 0 ==> before + Encode(units) == before;
    }
  }

  // Decoding what was encoded gives back as many of the units as there is room for, and uses exactly
  // their bytes: all of them, when there is room.
  lemma RoundTrip(units: seq<bv16>, room: nat)
    ensures room >= |units| ==> DecodeFrom(Encode(units), 0, room) == Decoded(units, |Encode(units)|)
    ensures room <= |units| ==> DecodeFrom(Encode(units), 0, room) == Decoded(units[..room], |Encode(units[..room])|)
  {
    assert [] + Encode(units) == Encode(units) && units[..|units|] == units;
    if room >= |units| {
      DecodesBehind([], units, room, |units|);
    }
    if room <= |units| {
      DecodesBehind([], units, room, room);
    }
  }

  // Encoding into a buffer and decoding what was written there gives back the units the encoder consumed.
  method ThereAndBack(units: array<bv16>, bytes: array<bv8>, back: array<bv16>)
    returns (consumed: nat, written: nat, used: nat, decoded: nat)
    requires bytes.Length >= 3 && back.Length >= units.Length && back != units
    modifies bytes, back
    ensures consumed <= units.Length && written <= bytes.Length && decoded <= back.Length
    ensures used == written && back[..decoded] == units[..consumed]
    ensures consumed == units.Length || written >= bytes.Length - 3
  {
    consumed, written := DoOut(units, bytes);
    used, decoded := DoIn(bytes, written, back);
    RoundTrip(units[..consumed], back.Length);
  }

  // Different texts are written differently.
  lemma EncodingIsInjective(a: seq<bv16>, b: seq<bv16>)
    requires Encode(a) == Encode(b)
    ensures a == b
  {
    var room := |a| + |b|;
    RoundTrip(a, room);
    RoundTrip(b, room);
  }
}
