/**
  rdencoding.c: the base-128 varint codec for unsigned 64-bit values.
 */
module Varint {
  import opened Basics

  type Word = bv64

  // ---------- The bits of one step ----------

  predicate Small(v: Word) {
    v < 0x80
  }

  function Rest(v: Word): Word {
    v >> 7
  }

  /** The byte written for a value that needs more bytes. */
  function More(v: Word): Octet {
    ((v & 0xff) as Octet) | 0x80
  }

  function Last(v: Word): Octet {
    (v & 0xff) as Octet
  }

  predicate Ends(b: Octet) {
    b < 0x80
  }

  function Payload(b: Octet): Word {
    (b & 0x7f) as Word
  }

  function Or(a: Word, b: Word): Word {
    a | b
  }

  function Shift7(x: Word): Word {
    x << 7
  }

  function Join(low: Word, high: Word): Word {
    Or(low, Shift7(high))
  }

  function Down(v: Word, n: nat): Word
    decreases n
  {
    if n == 0 then v else Down(Rest(v), n - 1)
  }

  // ---------- rd_varint_encode_u64 ----------

  lemma RestShrinks(v: Word)
    ensures !Small(v) ==> Rest(v) < v
  {
  }

  function Encode(v: Word): seq<Octet>
    decreases v
  {
    RestShrinks(v);
    if Small(v) then [Last(v)] else [More(v)] + Encode(Rest(v))
  }

  lemma EncodeSteps(v: Word)
    ensures Encode(v) != []
    ensures Small(v) ==> Encode(v) == [Last(v)]
    ensures !Small(v) ==> Encode(v) == [More(v)] + Encode(Rest(v)) && Rest(v) < v
  {
    RestShrinks(v);
    hide Small, Rest, More, Last;
  }

  lemma SuffixSteps(e: seq<Octet>, k: nat, head: Octet, rest: seq<Octet>)
    requires k <= |e| && e[k..] == [head] + rest
    ensures k < |e| && e[k] == head && e[k + 1..] == rest
  {
    assert e[k..][0] == e[k];
    assert e[k..][1..] == e[k + 1..];
  }

  /**
    rd_varint_encode_u64: -1 exactly when the encoding does not fit. The bytes that do fit are
    written in either case and nothing behind them is.
   */
  method EncodeInto(v: Word, dest: array<Octet>, size: nat) returns (r: int)
    requires size <= dest.Length
    modifies dest
    ensures r == if size < |Encode(v)| then -1 else |Encode(v)|
    ensures forall k :: 0 <= k < |Encode(v)| && k < size ==> dest[k] == Encode(v)[k]
    ensures forall k :: 0 <= k < dest.Length && (|Encode(v)| <= k || size <= k) ==> dest[k] == old(dest[k])
  {
    hide *;
    ghost var e := Encode(v);
    var uval, s := v, 0;
    while !Small(uval)
      invariant 0 <= s <= size && s <= |e| && e[s..] == Encode(uval)
      invariant forall k :: 0 <= k < s ==> dest[k] == e[k]
      invariant forall k :: s <= k < dest.Length ==> dest[k] == old(dest[k])
      decreases |e| - s
    {
      EncodeSteps(uval);
      SuffixSteps(e, s, More(uval), Encode(Rest(uval)));
      if s >= size {
        return -1;
      }
      dest[s] := More(uval);
      s := s + 1;
      uval := Rest(uval);
    }
    EncodeSteps(uval);
    SuffixSteps(e, s, Last(uval), []);
    if s >= size {
      return -1;
    }
    dest[s] := Last(uval);
    s := s + 1;
    return s;
  }

  // ---------- rd_varint_decode_u64 ----------

  /** The index of the first byte that ends a varint, or the length. */
  function EndOf(s: seq<Octet>): (t: nat)
    ensures t <= |s| && (t < |s| ==> Ends(s[t]))
    ensures forall k :: 0 <= k < t ==> !Ends(s[k])
    decreases |s|
  {
    if |s| == 0 || Ends(s[0]) then 0 else 1 + EndOf(s[1..])
  }

  lemma {:induction false} EndIsUnique(s: seq<Octet>, t: nat)
    requires t <= |s| && (t < |s| ==> Ends(s[t]))
    requires forall k :: 0 <= k < t ==> !Ends(s[k])
    ensures EndOf(s) == t
    decreases t
  {
    hide Ends;
    if t > 0 {
      EndIsUnique(s[1..], t - 1);
    }
  }

  /** The payload bits, seven a byte, least significant group first, cut to 64 bits. */
  function Value(s: seq<Octet>): Word {
    if s == [] then 0 else Join(Payload(s[0]), Value(s[1..]))
  }

  /** What is reported: the value and *vlenp. */
  datatype Decoded = Decoded(value: Word, vlen: int)

  function Decode(s: seq<Octet>): Decoded {
    var t := EndOf(s);
    if t == |s| then Decoded(0, -(|s| + 1))
    else if t > 9 then Decoded(0, 0 - t)
    else Decoded(Value(s[..t + 1]), t + 1)
  }

  /** x << (7 * n); everything is shifted out from n = 10 on. */
  function Up(x: Word, n: nat): Word
    decreases n
  {
    if n == 0 then x else Shift7(Up(x, n - 1))
  }

  lemma JoinOr(low: Word, a: Word, b: Word)
    ensures Join(low, Or(a, b)) == Or(Join(low, a), Shift7(b))
  {
    ShiftOr(a, b);
    OrAssoc(low, Shift7(a), Shift7(b));
    hide Or, Shift7;
  }

  lemma ShiftOr(a: Word, b: Word)
    ensures Shift7(Or(a, b)) == Or(Shift7(a), Shift7(b))
  {
  }

  lemma OrAssoc(a: Word, b: Word, c: Word)
    ensures Or(Or(a, b), c) == Or(a, Or(b, c))
  {
  }

  lemma JoinZero(low: Word)
    ensures Join(low, 0) == low && Or(0, low) == low
  {
  }

  lemma ValueSteps(s: seq<Octet>)
    ensures s == [] ==> Value(s) == 0
    ensures s != [] ==> Value(s) == Join(Payload(s[0]), Value(s[1..]))
  {
  }

  lemma UpSteps(x: Word, n: nat)
    ensures Up(x, 0) == x
    ensures Up(x, n + 1) == Shift7(Up(x, n))
  {
  }

  lemma {:induction false} ValueSnoc(p: seq<Octet>, b: Octet)
    ensures Value(p + [b]) == Or(Value(p), Up(Payload(b), |p|))
    decreases |p|
  {
    hide *;
    ValueSteps(p);
    ValueSteps(p + [b]);
    ValueSteps([]);
    UpSteps(Payload(b), 0);
    if p == [] {
      assert (p + [b])[1..] == [];
      JoinZero(Payload(b));
    } else {
      assert (p + [b])[1..] == p[1..] + [b];
      ValueSnoc(p[1..], b);
      UpSteps(Payload(b), |p| - 1);
      JoinOr(Payload(p[0]), Value(p[1..]), Up(Payload(b), |p| - 1));
    }
  }

  lemma EndPayload(b: Octet)
    ensures Ends(b) ==> Payload(b) == b as Word
  {
  }

  /** rd_varint_decode_u64; the shift count `bits` is seven times the length so far. */
  method DecodeLoop(s: seq<Octet>) returns (value: Word, vlen: int)
    ensures Decoded(value, vlen) == Decode(s)
  {
    hide EndOf, Value, Up, Or, Payload, Ends;
    var uval: Word := 0;
    vlen := 0;
    ValueSteps([]);
    while vlen < |s|
      invariant 0 <= vlen <= |s|
      invariant forall k :: 0 <= k < vlen ==> !Ends(s[k])
      invariant uval == Value(s[..vlen])
    {
      if Ends(s[vlen]) {
        EndIsUnique(s, vlen);
        if vlen > 9 {
          vlen := -vlen;
          return 0, vlen;
        }
        EndPayload(s[vlen]);
        ValueSnoc(s[..vlen], s[vlen]);
        assert s[..vlen + 1] == s[..vlen] + [s[vlen]];
        value := Or(uval, Up(s[vlen] as Word, vlen));
        vlen := vlen + 1;
        return;
      }
      ValueSnoc(s[..vlen], s[vlen]);
      assert s[..vlen + 1] == s[..vlen] + [s[vlen]];
      uval := Or(uval, Up(Payload(s[vlen]), vlen));
      vlen := vlen + 1;
    }
    EndIsUnique(s, |s|);
    if vlen == 0 || !Ends(s[vlen - 1]) {
      vlen := -(vlen + 1);
    }
    return 0, vlen;
  }

  // ---------- Lengths ----------

  predicate AtMost(a: Word, b: Word) {
    a <= b
  }

  lemma RestMonotone(a: Word, b: Word)
    requires AtMost(a, b)
    ensures AtMost(Rest(a), Rest(b))
  {
  }

  lemma SmallIff(a: Word)
    ensures Small(a) <==> Rest(a) == 0
    ensures Rest(0) == 0
  {
  }

  lemma BitStays(a: Word)
    requires AtMost(a, 1)
    ensures AtMost(Rest(a), 1)
  {
  }

  lemma DownSteps(v: Word, n: nat)
    ensures Down(v, 0) == v
    ensures Down(v, n + 1) == Down(Rest(v), n)
  {
  }

  lemma {:induction false} DownZero(n: nat)
    ensures Down(0, n) == 0
  {
    hide Rest;
    SmallIff(0);
    if n > 0 {
      DownZero(n - 1);
    }
  }

  lemma {:induction false} DownMonotone(a: Word, b: Word, n: nat)
    requires AtMost(a, b)
    ensures AtMost(Down(a, n), Down(b, n))
    decreases n
  {
    hide Rest, AtMost;
    if n > 0 {
      RestMonotone(a, b);
      DownMonotone(Rest(a), Rest(b), n - 1);
    }
  }

  /** An encoding has at most n bytes exactly when the value has at most 7n bits. */
  lemma {:induction false} LengthIff(v: Word, n: nat)
    requires n >= 1
    ensures |Encode(v)| <= n <==> Down(v, n) == 0
    decreases n
  {
    hide *;
    EncodeSteps(v);
    SmallIff(v);
    DownSteps(v, n - 1);
    DownSteps(Rest(v), 0);
    EncodeSteps(Rest(v));
    if Small(v) {
      DownZero(n - 1);
    } else if n > 1 {
      LengthIff(Rest(v), n - 1);
    }
  }

  predicate Fits57(v: Word) {
    v < 0x200_0000_0000_0000
  }

  lemma NineRests(v: Word)
    ensures Rest(Rest(Rest(Rest(Rest(Rest(Rest(Rest(v)))))))) == v >> 56
    ensures AtMost(v >> 56, 1) ==> Fits57(v)
    ensures AtMost(Rest(v >> 56), 1) && Rest(Rest(v >> 56)) == 0
  {
  }

  lemma DownEight(v: Word)
    ensures Down(v, 8) == v >> 56
    ensures AtMost(Down(v, 9), 1) && Down(v, 10) == 0
  {
    NineRests(v);
    hide *;
    var v4 := Rest(Rest(Rest(Rest(v))));
    var v8 := Rest(Rest(Rest(Rest(v4))));
    FourDown(v, 0);
    FourDown(v, 4);
    FourDown(v, 5);
    FourDown(v, 6);
    FourDown(v4, 0);
    FourDown(v4, 1);
    FourDown(v4, 2);
    DownSteps(v8, 0);
    DownSteps(v8, 1);
    DownSteps(Rest(v8), 0);
    DownSteps(Rest(Rest(v8)), 0);
  }

  lemma FourDown(v: Word, n: nat)
    ensures Down(v, n + 4) == Down(Rest(Rest(Rest(Rest(v)))), n)
    ensures Down(v, 0) == v
  {
    hide Rest;
    assert Down(v, n + 4) == Down(Rest(v), n + 3) == Down(Rest(Rest(v)), n + 2);
    assert Down(Rest(Rest(v)), n + 2) == Down(Rest(Rest(Rest(v))), n + 1);
  }

  /** No value needs more than ten bytes. */
  lemma AtMostTenBytes(v: Word)
    ensures 1 <= |Encode(v)| <= 10
  {
    hide *;
    EncodeSteps(v);
    LengthIff(v, 10);
    DownEight(v);
  }

  // ---------- Round trip ----------

  lemma ByteFacts(v: Word)
    ensures Small(v) ==> Ends(Last(v)) && Payload(Last(v)) == v
    ensures !Ends(More(v)) && Join(Payload(More(v)), Rest(v)) == v
  {
  }

  lemma {:induction false} EncodeDecodes(v: Word)
    ensures Value(Encode(v)) == v
    ensures Encode(v) != [] && EndOf(Encode(v)) == |Encode(v)| - 1
    ensures forall k :: 0 <= k < |Encode(v)| - 1 ==> !Ends(Encode(v)[k])
    decreases v
  {
    hide *;
    var e := Encode(v);
    EncodeSteps(v);
    ByteFacts(v);
    ValueSteps(e);
    ValueSteps([]);
    JoinZero(v);
    if Small(v) {
      assert e[1..] == [];
    } else {
      assert e[1..] == Encode(Rest(v));
      EncodeDecodes(Rest(v));
      assert forall k :: 0 < k < |e| - 1 ==> e[k] == Encode(Rest(v))[k - 1];
    }
    assert Ends(e[|e| - 1]);
    EndIsUnique(e, |e| - 1);
  }

  /** Decoding an encoding, whatever follows it, gives the value and the exact length. */
  lemma RoundTrip(v: Word, rest: seq<Octet>)
    ensures Decode(Encode(v) + rest) == Decoded(v, |Encode(v)|)
  {
    hide Encode, EndOf, Value, Ends;
    var e := Encode(v);
    EncodeDecodes(v);
    AtMostTenBytes(v);
    assert e == e[..|e| - 1] + [e[|e| - 1]];
    assert Ends(e[|e| - 1]);
    EndIsUnique(e + rest, |e| - 1);
    assert (e + rest)[..|e|] == e;
  }

  /** A strict prefix of m bytes of an encoding asks for byte m + 1. */
  lemma PrefixAsksForMore(v: Word, m: nat)
    requires m < |Encode(v)|
    ensures Decode(Encode(v)[..m]) == Decoded(0, -(m + 1))
  {
    hide Encode, EndOf, Value, Ends;
    EncodeDecodes(v);
    EndIsUnique(Encode(v)[..m], m);
  }

  // ---------- Shortest form ----------

  lemma RestOfJoin(b: Octet, x: Word)
    ensures AtMost(Rest(Join(Payload(b), x)), x)
    ensures Fits57(x) ==> Rest(Join(Payload(b), x)) == x
  {
  }

  lemma AtMostZero(a: Word)
    ensures AtMost(a, 0) ==> a == 0
    ensures AtMost(0, 1) && AtMost(a, a)
  {
  }

  lemma {:induction false} ValueFits(s: seq<Octet>)
    ensures Down(Value(s), |s|) == 0
    decreases |s|
  {
    hide *;
    ValueSteps(s);
    if s == [] {
      DownSteps(0, 0);
    } else {
      ValueFits(s[1..]);
      RestOfJoin(s[0], Value(s[1..]));
      DownMonotone(Rest(Value(s)), Value(s[1..]), |s| - 1);
      AtMostZero(Down(Rest(Value(s)), |s| - 1));
      DownSteps(Value(s), |s| - 1);
    }
  }

  /** No accepted byte string is shorter than the encoding of the value it stands for. */
  lemma EncodingIsShortest(s: seq<Octet>)
    requires Decode(s).vlen > 0
    ensures |Encode(Decode(s).value)| <= Decode(s).vlen
  {
    hide Encode, EndOf, Value, Ends, Down;
    ValueFits(s[..EndOf(s) + 1]);
    LengthIff(Decode(s).value, EndOf(s) + 1);
  }

  predicate Bit(b: Octet) {
    b <= 1
  }

  /** Ten bytes at most, no superfluous last byte, and no bit beyond the 64th. */
  predicate Canonical(s: seq<Octet>)
    requires s != []
  {
    (|s| > 1 ==> s[|s| - 1] != 0) && (|s| == 10 ==> Bit(s[9]))
  }

  lemma LastFacts(d: Word)
    requires Small(d)
    ensures (Last(d) == 0 <==> d == 0) && (Bit(Last(d)) <==> AtMost(d, 1))
  {
  }

  lemma {:induction false} EncodesLast(v: Word)
    ensures var d := Down(v, |Encode(v)| - 1); Small(d) && Encode(v)[|Encode(v)| - 1] == Last(d)
    decreases v
  {
    hide *;
    EncodeSteps(v);
    DownSteps(v, 0);
    if !Small(v) {
      EncodesLast(Rest(v));
      EncodeSteps(Rest(v));
      DownSteps(v, |Encode(v)| - 2);
    }
  }

  lemma EncodeIsCanonical(v: Word)
    ensures Encode(v) != [] && Canonical(Encode(v))
  {
    hide Encode, Down, Small, Last;
    var n := |Encode(v)|;
    EncodeSteps(v);
    EncodesLast(v);
    LastFacts(Down(v, n - 1));
    DownEight(v);
    if n > 1 {
      LengthIff(v, n - 1);
    }
  }

  /** s is one encoding of at most n bytes that stays within 7 (n - 1) + 1 bits. */
  predicate Tight(s: seq<Octet>, n: nat) {
    s != [] && |s| <= n && Ends(s[|s| - 1]) && (forall k :: 0 <= k < |s| - 1 ==> !Ends(s[k])) &&
    (|s| > 1 ==> s[|s| - 1] != 0) && (|s| == n ==> Bit(s[|s| - 1]))
  }

  lemma OneByte(b: Octet)
    requires Ends(b)
    ensures Join(Payload(b), 0) == b as Word && Small(b as Word) && Last(b as Word) == b
    ensures Bit(b) ==> AtMost(b as Word, 1)
  {
  }

  lemma MoreOfJoin(b: Octet, x: Word)
    requires !Ends(b)
    ensures More(Join(Payload(b), x)) == b
  {
  }

  lemma {:induction false} DownStaysLow(x: Word, k: nat, n: nat)
    requires AtMost(Down(x, k), 1) && k <= n
    ensures AtMost(Down(x, n), 1)
    decreases n
  {
    hide Rest, AtMost, Down;
    if k < n {
      DownStaysLow(x, k, n - 1);
      DownSnoc(x, n - 1);
      BitStays(Down(x, n - 1));
    }
  }

  lemma {:induction false} DownSnoc(v: Word, n: nat)
    ensures Down(v, n + 1) == Rest(Down(v, n))
    decreases n
  {
    hide Rest;
    if n > 0 {
      DownSnoc(Rest(v), n - 1);
    }
  }

  lemma {:induction false} TightEncodes(s: seq<Octet>, n: nat)
    requires Tight(s, n) && n <= 10
    ensures Encode(Value(s)) == s && AtMost(Down(Value(s), n - 1), 1)
    decreases |s|
  {
    hide Encode, Value, Small, Rest, More, Last, Ends, Payload, Join, Down, AtMost, Bit, Fits57;
    var b, r := s[0], s[1..];
    var x, v := Value(r), Value(s);
    ValueSteps(s);
    EncodeSteps(v);
    if |s| == 1 {
      ValueSteps(r);
      OneByte(b);
      DownSteps(v, 0);
      AtMostZero(0);
      SmallIff(v);
      if n > 1 {
        DownSteps(v, n - 2);
        DownZero(n - 2);
      }
    } else {
      TightEncodes(r, n - 1);
      DownStaysLow(x, n - 2, 8);
      DownEight(x);
      NineRests(x);
      RestOfJoin(b, x);
      MoreOfJoin(b, x);
      SmallIff(x);
      if x == 0 {
        LastFacts(x);
      }
      assert s == [b] + r && !Ends(b) && r[|r| - 1] == s[|s| - 1];
      SmallIff(v);
      EncodeSteps(x);
      DownSteps(v, n - 2);
    }
  }

  /** A complete encoding is the one that would be written exactly when it is canonical. */
  lemma CanonicalIff(s: seq<Octet>)
    requires EndOf(s) + 1 == |s| <= 10
    ensures Encode(Decode(s).value) == s <==> Canonical(s)
  {
    hide Encode, EndOf, Value, Ends, Bit;
    assert s[..EndOf(s) + 1] == s;
    EncodeIsCanonical(Value(s));
    if Canonical(s) {
      TightEncodes(s, 10);
    }
  }

  // ---------- What the reported length tells ----------

  /** RD_VARINT_DECODE_OVERFLOW. */
  predicate OverflowMacro(vlen: int) {
    vlen <= -9
  }

  /** The length of the input tells a shortage from an overflow. */
  lemma ShortageIff(s: seq<Octet>)
    ensures EndOf(s) == |s| <==> Decode(s).vlen == -(|s| + 1)
  {
    hide EndOf, Value;
  }

  /** The macro alone does not: it is also true of a shortage of eight bytes or more. */
  lemma OverflowMacroIff(s: seq<Octet>)
    ensures OverflowMacro(Decode(s).vlen) <==> (EndOf(s) == |s| && |s| >= 8) || 10 <= EndOf(s) < |s|
  {
    hide EndOf, Value;
  }

  /** A value of 57 bits or more has prefixes that only lack bytes and yet read as overflow. */
  lemma ShortageTakenForOverflow(v: Word, m: nat)
    requires 8 <= m < |Encode(v)|
    ensures OverflowMacro(Decode(Encode(v)[..m]).vlen)
    ensures Decode(Encode(v)) == Decoded(v, |Encode(v)|)
  {
    hide Encode, Decode;
    PrefixAsksForMore(v, m);
    RoundTrip(v, []);
    assert Encode(v) + [] == Encode(v);
  }

  lemma TopShift(b: Octet)
    ensures Shift7(Shift7(Shift7(Shift7(Shift7(Shift7(Shift7(Shift7(Shift7(Payload(b)))))))))) == Payload(b) << 63
    ensures Payload(b) << 63 == Payload(b & 1) << 63
  {
  }

  lemma NineUp(x: Word)
    ensures Up(x, 9) == Shift7(Shift7(Shift7(Shift7(Shift7(Shift7(Shift7(Shift7(Shift7(x)))))))))
  {
    hide *;
    UpSteps(x, 0);
    UpSteps(x, 1);
    UpSteps(x, 2);
    UpSteps(x, 3);
    UpSteps(x, 4);
    UpSteps(x, 5);
    UpSteps(x, 6);
    UpSteps(x, 7);
    UpSteps(x, 8);
  }

  /** Overflow within the tenth byte is not reported: all but its lowest bit is dropped. */
  lemma TenthByteIsCut(s: seq<Octet>, b: Octet)
    requires |s| == 9
    ensures Value(s + [b]) == Value(s + [b & 1])
  {
    hide *;
    ValueSnoc(s, b);
    ValueSnoc(s, b & 1);
    NineUp(Payload(b));
    NineUp(Payload(b & 1));
    TopShift(b);
    TopShift(b & 1);
    BitOfBit(b);
  }

  lemma BitOfBit(b: Octet)
    ensures (b & 1) & 1 == b & 1
  {
  }

  // ---------- The unbounded number that a varint stands for ----------

  function Digit(b: Octet): nat {
    (b & 0x7f) as nat
  }

  function Num(s: seq<Octet>): nat {
    if s == [] then 0 else Digit(s[0]) + 128 * Num(s[1..])
  }

  const TWO64: nat := 0x1_0000_0000_0000_0000

  lemma MaskedJoin(b: Octet, x: Word)
    ensures (((b & 0x7f) as Word) | ((x & 0x1ff_ffff_ffff_ffff) << 7)) as nat ==
      Digit(b) + 128 * ((x & 0x1ff_ffff_ffff_ffff) as nat)
  {
  }

  lemma MaskKeeps(x: Word)
    requires Fits57(x)
    ensures x & 0x1ff_ffff_ffff_ffff == x
  {
  }

  lemma JoinIsSum(b: Octet, x: Word)
    requires Fits57(x)
    ensures Join(Payload(b), x) as nat == Digit(b) + 128 * (x as nat)
  {
    MaskKeeps(x);
    MaskedJoin(b, x);
    hide Fits57;
  }

  lemma NumSteps(s: seq<Octet>)
    ensures s == [] ==> Num(s) == 0
    ensures s != [] ==> Num(s) == Digit(s[0]) + 128 * Num(s[1..])
  {
    hide Digit;
  }

  lemma BitPayload(b: Octet)
    ensures Bit(b) ==> AtMost(Payload(b), 1)
    ensures Rest(Payload(b)) == 0 && Join(Payload(b), 0) == Payload(b)
  {
  }

  /** Up to ten bytes, the tenth at most 1, the value is the number; in general, n bytes of 7 (n - 1) + 1 bits. */
  lemma {:induction false} ValueIsNum(s: seq<Octet>, n: nat)
    requires |s| <= n && 1 <= n <= 10 && (|s| == n ==> Bit(s[|s| - 1]))
    ensures Value(s) as nat == Num(s) && AtMost(Down(Value(s), n - 1), 1)
    decreases |s|
  {
    hide *;
    ValueSteps(s);
    NumSteps(s);
    AtMostZero(0);
    if s == [] {
      DownZero(n - 1);
    } else {
      var r, x := s[1..], Value(s[1..]);
      assert r != [] ==> r[|r| - 1] == s[|s| - 1];
      if n == 1 {
        assert r == [];
        ValueSteps(r);
        NumSteps(r);
        BitPayload(s[0]);
        FitsZero();
        JoinIsSum(s[0], 0);
        DownSteps(Value(s), 0);
      } else {
        ValueIsNum(r, n - 1);
        DownStaysLow(x, n - 2, 8);
        DownEight(x);
        NineRests(x);
        JoinIsSum(s[0], x);
        RestOfJoin(s[0], x);
        DownSteps(Value(s), n - 2);
      }
    }
  }

  lemma FitsZero()
    ensures Fits57(0) && (0 as Word) as nat == 0
  {
  }

  function Pow128(n: nat): nat {
    if n == 0 then 1 else 128 * Pow128(n - 1)
  }

  lemma {:induction false} NumAtLeast(s: seq<Octet>)
    requires s != []
    ensures Num(s) >= Digit(s[|s| - 1]) * Pow128(|s| - 1)
    decreases |s|
  {
    hide Digit;
    if |s| > 1 {
      var r := s[1..];
      NumAtLeast(r);
      assert r[|r| - 1] == s[|s| - 1];
      Scaled(Digit(s[|s| - 1]), Pow128(|r| - 1), Num(r));
    }
  }

  lemma Scaled(d: nat, p: nat, n: nat)
    requires n >= d * p
    ensures 128 * n >= d * (128 * p)
  {
  }

  lemma BigLast(b: Octet)
    requires Ends(b) && !Bit(b)
    ensures Digit(b) >= 2
  {
  }

  lemma BelowTwo64(x: Word)
    ensures x as nat < TWO64
  {
  }

  lemma PowNine()
    ensures 2 * Pow128(9) == TWO64
  {
    assert Pow128(3) == 128 * 128 * 128;
    assert Pow128(6) == 128 * 128 * 128 * Pow128(3);
    assert Pow128(9) == 128 * 128 * 128 * Pow128(6);
  }

  lemma TenBytesTooBig(s: seq<Octet>)
    requires |s| == 10 && Ends(s[9]) && !Bit(s[9])
    ensures Num(s) >= TWO64
  {
    hide Digit, Num, Pow128, Ends, Bit;
    NumAtLeast(s);
    BigLast(s[9]);
    PowNine();
    assert Digit(s[9]) * Pow128(9) >= 2 * Pow128(9);
  }

  /** A value that is reported as decoded is the number that was sent if and only if no tenth byte exceeds 1. */
  lemma DecodeExactIff(s: seq<Octet>)
    requires Decode(s).vlen > 0
    ensures Decode(s).value as nat == Num(s[..Decode(s).vlen]) <==> Decode(s).vlen < 10 || Bit(s[9])
  {
    hide Value, Num, Ends, Bit, EndOf;
    var u := s[..Decode(s).vlen];
    assert Decode(s) == Decoded(Value(u), |u|) && Ends(u[|u| - 1]);
    if |u| < 10 || Bit(s[9]) {
      ValueIsNum(u, 10);
    } else {
      TenBytesTooBig(u);
      BelowTwo64(Value(u));
    }
  }

  /** The failing case: a tenth byte above 1 is taken for its lowest bit, and success is reported. */
  lemma TenthByteIsNotReported(s: seq<Octet>, b: Octet)
    requires |s| == 9 && (forall k :: 0 <= k < 9 ==> !Ends(s[k])) && Ends(b)
    ensures Decode(s + [b]) == Decode(s + [b & 1]) && Decode(s + [b]).vlen == 10
  {
    hide Value, Ends, EndOf;
    LowBitEnds(b);
    EndIsUnique(s + [b], 9);
    EndIsUnique(s + [b & 1], 9);
    TenthByteIsCut(s, b);
    assert (s + [b])[..10] == s + [b] && (s + [b & 1])[..10] == s + [b & 1];
  }

  lemma LowBitEnds(b: Octet)
    ensures Ends(b & 1)
  {
  }

  // ---------- Both directions in numbers ----------

  lemma DigitIsRemainder(b: Octet)
    ensures Digit(b) == b as nat % 128
  {
    assert (b & 0x7f) == b % 128;
  }

  /** The bytes of an encoding are the base-128 digits of the value, each but the last with its top bit set. */
  lemma EncodeMeans(v: Word)
    ensures Num(Encode(v)) == v as nat
    ensures forall k :: 0 <= k < |Encode(v)| ==> (Encode(v)[k] < 0x80 <==> k == |Encode(v)| - 1)
  {
    var e := Encode(v);
    RoundTrip(v, []);
    assert e + [] == e && e[..|e|] == e;
    EncodeIsCanonical(v);
    AtMostTenBytes(v);
    DecodeExactIff(e);
    assert EndOf(e) == |e| - 1 by {
      hide Encode, Value;
    }
    hide Encode, Num, Value, Decode;
  }

  /** What is reported for t bytes with and then one without the top bit, or without any such end. */
  lemma DecodeMeans(s: seq<Octet>, t: nat)
    requires t <= |s| && (forall k :: 0 <= k < t ==> s[k] >= 0x80) && (t < |s| ==> s[t] < 0x80)
    ensures t == |s| ==> Decode(s) == Decoded(0, -(|s| + 1))
    ensures 10 <= t < |s| ==> Decode(s) == Decoded(0, 0 - t)
    ensures t < |s| && t < 10 ==> Decode(s).vlen == t + 1
    ensures t < |s| && t < 9 ==> Decode(s).value as nat == Num(s[..t + 1])
    ensures t == 9 < |s| ==> (Decode(s).value as nat == Num(s[..10]) <==> s[9] <= 1)
  {
    EndIsUnique(s, t);
    if t < |s| && t < 10 {
      DecodeExactIff(s);
    }
    hide EndOf, Value, Num;
  }

  // ---------- The documented reading of the length ----------

  /** The documentation: below -9 an overflow, from 0 down to above -9 a shortage. */
  predicate DocumentedOverflow(vlen: int) {
    vlen < -9
  }

  predicate DocumentedShortage(vlen: int) {
    -9 < vlen <= 0
  }

  /** It takes shortages of nine bytes or more for overflows and leaves one of eight bytes unexplained. */
  lemma DocumentedReading(s: seq<Octet>)
    ensures DocumentedOverflow(Decode(s).vlen) <==> (EndOf(s) == |s| && |s| >= 9) || 10 <= EndOf(s) < |s|
    ensures DocumentedShortage(Decode(s).vlen) <==> EndOf(s) == |s| <= 7
    ensures Decode(s).vlen == -9 <==> EndOf(s) == |s| == 8
  {
    hide EndOf, Value;
  }
}
