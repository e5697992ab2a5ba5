/**
  rdencoding.c: text to bytes and back. A byte is its unsigned value; a text is what stands in
  memory before the terminating NUL, which `At` supplies.
 */
module Hex {
  import opened Basics

  newtype Nibble = b: int | 0 <= b < 16

  function At(text: string, k: nat): char {
    if k < |text| then text[k] else '\0'
  }

  predicate Ignored(c: char) {
    c in {' ', '\t', '.', ':', '\n', '\r'}
  }

  function Digit(c: char): (d: Option<Nibble>)
    ensures Ignored(c) || c == '\0' ==> d.None?
  {
    if '0' <= c <= '9' then Some((c as int - '0' as int) as Nibble)
    else if 'A' <= c <= 'F' then Some((c as int - 'A' as int + 10) as Nibble)
    else if 'a' <= c <= 'f' then Some((c as int - 'a' as int + 10) as Nibble)
    else None
  }

  /** The 22 digits with their values, and the six separators. */
  lemma CharacterTable(c: char)
    ensures forall i :: 0 <= i < 10 ==> Digit("0123456789"[i]) == Some(i as Nibble)
    ensures forall i :: 0 <= i < 6 ==> Digit("ABCDEF"[i]) == Digit("abcdef"[i]) == Some((10 + i) as Nibble)
    ensures Digit(c).Some? <==> c in "0123456789ABCDEFabcdef"
    ensures Ignored(c) <==> c in " \t.:\n\r"
  {
    assert '0' as int == 48 && 'A' as int == 65 && 'a' as int == 97;
    if '0' <= c <= '9' {
      assert c == "0123456789ABCDEFabcdef"[c as int - 48];
    } else if 'A' <= c <= 'F' {
      assert c == "0123456789ABCDEFabcdef"[c as int - 65 + 10];
    } else if 'a' <= c <= 'f' {
      assert c == "0123456789ABCDEFabcdef"[c as int - 97 + 16];
    }
    var ignored := " \t.:\n\r";
    assert ignored[0] == ' ' && ignored[1] == '\t' && ignored[2] == '.' && ignored[3] == ':';
    assert ignored[4] == '\n' && ignored[5] == '\r' && |ignored| == 6;
  }

  /** The digits up to the first character that is neither a digit nor ignored. */
  function Digits(text: string): seq<Nibble> {
    if text == [] then []
    else if Ignored(text[0]) then Digits(text[1..])
    else match Digit(text[0])
      case Some(d) => [d] + Digits(text[1..])
      case None => []
  }

  function Byte2(high: Nibble, low: Nibble): Byte {
    (high as int * 16 + low as int) as Byte
  }

  /** Two digits a byte, high digit first. */
  function Pack(ds: seq<Nibble>): (bytes: seq<Byte>)
    ensures |bytes| == |ds| / 2
    ensures forall k :: 0 <= k < |bytes| ==> bytes[k] as int == 16 * ds[2 * k] as int + ds[2 * k + 1] as int
  {
    if |ds| < 2 then [] else [Byte2(ds[0], ds[1])] + Pack(ds[2..])
  }

  /** The characters that the length argument lets be read; -1 means all up to the NUL. */
  function Window(text: string, inlen: int): string {
    if inlen == -1 || inlen >= |text| then text else if inlen < 0 then [] else text[..inlen]
  }

  /** A limit other than -1 is never read past, and a shorter text is read to its end. */
  lemma WindowMeans(text: string, inlen: int, k: nat)
    ensures Window(text, inlen) <= text
    ensures inlen == -1 ==> Window(text, inlen) == text
    ensures inlen != -1 ==> (k <= |Window(text, inlen)| <==> k <= |text| && (k <= inlen || k == 0))
  {
  }

  // ---------- rd_hex2bin ----------

  lemma {:induction false} DigitsSnoc(text: string, k: nat)
    requires k < |text| && forall i :: 0 <= i < k ==> Ignored(text[i]) || Digit(text[i]).Some?
    ensures Ignored(text[k]) ==> Digits(text[..k + 1]) == Digits(text[..k])
    ensures Digit(text[k]).Some? ==> Digits(text[..k + 1]) == Digits(text[..k]) + [Digit(text[k]).value]
    ensures !Ignored(text[k]) && Digit(text[k]).None? ==> Digits(text) == Digits(text[..k])
    decreases k
  {
    if k > 0 {
      assert text[..k + 1][1..] == text[1..][..k] && text[..k][1..] == text[1..][..k - 1];
      assert text[..k + 1][0] == text[0] && text[..k][0] == text[0];
      DigitsSnoc(text[1..], k - 1);
    } else {
      assert text[..1][1..] == [];
    }
  }

  predicate Scanned(text: string, k: nat) {
    k <= |text| && forall i :: 0 <= i < k ==> Ignored(text[i]) || Digit(text[i]).Some?
  }

  /** However much of a text has been scanned, its digits are a prefix of all digits. */
  lemma {:induction false} ScannedDigits(text: string, k: nat)
    requires Scanned(text, k)
    ensures Digits(text[..k]) <= Digits(text)
    decreases k
  {
    if k > 0 {
      assert text[..k][1..] == text[1..][..k - 1] && text[..k][0] == text[0];
      ScannedDigits(text[1..], k - 1);
    }
  }

  /** What the scan has read when it stops is all there is to read, or at least what was asked for. */
  lemma ScanEnds(text: string, k: nat)
    requires Scanned(text, k)
    ensures Digits(text[..k]) <= Digits(text)
    ensures k == |text| || (!Ignored(text[k]) && Digit(text[k]).None?) ==> Digits(text[..k]) == Digits(text)
  {
    ScannedDigits(text, k);
    if k == |text| {
      assert text[..k] == text;
    } else {
      DigitsSnoc(text, k);
    }
  }

  lemma WindowStep(text: string, inlen: int, k: nat)
    requires k <= |Window(text, inlen)|
    ensures At(text, k) != '\0' && (inlen == -1 || k < inlen) ==>
      k < |Window(text, inlen)| && Window(text, inlen)[k] == At(text, k)
    ensures !(At(text, k) != '\0' && (inlen == -1 || k < inlen)) && k < |Window(text, inlen)| ==>
      Window(text, inlen)[k] == '\0'
  {
  }

  /** dst[..d] holds the whole bytes of ds, and dst[d] an odd last digit; the rest is as in was. */
  predicate Holds(dst: seq<Byte>, was: seq<Byte>, ds: seq<Nibble>, d: nat) {
    |dst| == |was| && 2 * d <= |ds| <= 2 * d + 1 && d + |ds| % 2 <= |dst| &&
    (forall k :: 0 <= k < d ==> dst[k] == Byte2(ds[2 * k], ds[2 * k + 1])) &&
    (|ds| == 2 * d + 1 ==> dst[d] == Byte2(ds[2 * d], 0)) &&
    (forall k :: d + |ds| % 2 <= k < |dst| ==> dst[k] == was[k])
  }

  lemma HoldsMore(dst: seq<Byte>, was: seq<Byte>, ds: seq<Nibble>, d: nat, n: Nibble)
    requires Holds(dst, was, ds, d) && d < |dst|
    ensures |ds| % 2 == 0 ==> Holds(dst[d := Byte2(n, 0)], was, ds + [n], d)
    ensures |ds| % 2 == 1 ==>
      dst[d] as int + n as int < 256 && Holds(dst[d := dst[d] + n as Byte], was, ds + [n], d + 1)
  {
    var e := ds + [n];
    assert forall k :: 0 <= k < d ==> e[2 * k] == ds[2 * k] && e[2 * k + 1] == ds[2 * k + 1];
  }

  function Count(digits: nat, dstlen: int): nat {
    if dstlen <= 0 then 0 else if dstlen < digits / 2 then dstlen else digits / 2
  }

  /** The whole bytes are as many as the digits and the destination allow. */
  lemma CountMeans(digits: nat, dstlen: int, k: nat)
    ensures k <= Count(digits, dstlen) <==> k == 0 || (2 * k <= digits && k <= dstlen)
  {
  }

  lemma NulStops(c: char)
    requires c == '\0'
    ensures !Ignored(c) && Digit(c).None?
  {
  }

  lemma Starts(was: seq<Byte>, text: string)
    ensures Holds(was, was, [], 0) && Scanned(text, 0) && Digits(text[..0]) == []
  {
  }

  lemma ScanStep(text: string, k: nat)
    requires k < |text| && Scanned(text, k)
    ensures Ignored(text[k]) || Digit(text[k]).Some? ==> Scanned(text, k + 1)
    ensures Ignored(text[k]) ==> Digits(text[..k + 1]) == Digits(text[..k])
    ensures Digit(text[k]).Some? ==> Digits(text[..k + 1]) == Digits(text[..k]) + [Digit(text[k]).value]
  {
    hide Digits, Ignored, Digit;
    DigitsSnoc(text, k);
  }

  lemma Finished(dst: seq<Byte>, was: seq<Byte>, all: seq<Nibble>, ds: seq<Nibble>, d: nat, dstlen: int)
    requires Holds(dst, was, ds, d) && ds <= all && (d < dstlen || d == 0 || |ds| == 2 * dstlen)
    requires d < dstlen ==> ds == all
    requires d >= dstlen ==> (d == 0 && ds == []) || |ds| == 2 * dstlen
    ensures d == Count(|all|, dstlen)
    ensures Holds(dst, was, if d == dstlen || dstlen < 0 then all[..2 * d] else all, d)
  {
  }

  /**
    rd_hex2bin: as many whole bytes as the digits and the destination allow; an odd last digit is
    left in the high half of the next byte, if there is one, and not counted.
   */
  method Hex2Bin(text: string, inlen: int, dst: array<Byte>, dstlen: int) returns (r: nat)
    requires dstlen <= dst.Length
    modifies dst
    ensures r == Count(|Digits(Window(text, inlen))|, dstlen)
    ensures var ds := Digits(Window(text, inlen));
      Holds(dst[..], old(dst[..]), if r == dstlen || dstlen < 0 then ds[..2 * r] else ds, r)
  {
    hide *;
    ghost var w := Window(text, inlen);
    ghost var ds: seq<Nibble> := [];
    var s, d, state := 0, 0, 0;
    Starts(dst[..], w);
    while At(text, s) != '\0' && (inlen == -1 || s < inlen) && d < dstlen
      invariant s <= |w| && Scanned(w, s) && ds == Digits(w[..s])
      invariant state == |ds| && d == state / 2 && (d < dstlen || (d == 0 && ds == []) || state == 2 * dstlen)
      invariant Holds(dst[..], old(dst[..]), ds, d)
      decreases |w| - s
    {
      WindowStep(text, inlen, s);
      var c := At(text, s);
      ScanStep(w, s);
      if Ignored(c) {
        s := s + 1;
        continue;
      }
      if Digit(c).None? {
        break;
      }
      var n := Digit(c).value;
      HoldsMore(dst[..], old(dst[..]), ds, d, n);
      if state % 2 == 1 {
        dst[d] := dst[d] + n as Byte;
        d := d + 1;
      } else {
        dst[d] := Byte2(n, 0);
      }
      ds := ds + [n];
      state := state + 1;
      s := s + 1;
    }
    WindowStep(text, inlen, s);
    ScanEnds(w, s);
    NulStops('\0');
    Finished(dst[..], old(dst[..]), Digits(w), ds, d, dstlen);
    r := d;
  }

  // ---------- rd_bin2hex ----------

  function HexDigit(n: Nibble): char {
    "0123456789abcdef"[n]
  }

  function High(b: Byte): Nibble {
    (b as int / 16) as Nibble
  }

  function Low(b: Byte): Nibble {
    (b as int % 16) as Nibble
  }

  function Text(bin: seq<Byte>): string {
    if bin == [] then [] else [HexDigit(High(bin[0])), HexDigit(Low(bin[0]))] + Text(bin[1..])
  }

  lemma {:induction false} TextSnoc(bin: seq<Byte>, b: Byte)
    ensures Text(bin + [b]) == Text(bin) + [HexDigit(High(b)), HexDigit(Low(b))]
    ensures |Text(bin)| == 2 * |bin|
  {
    hide HexDigit, High, Low;
    if bin == [] {
      assert ([] + [b])[1..] == [];
    } else {
      assert (bin + [b])[0] == bin[0] && (bin + [b])[1..] == bin[1..] + [b];
      TextSnoc(bin[1..], b);
    }
  }

  /** How many of n bytes are written to a text of the given size. */
  function Fit(n: int, dstlen: int): nat {
    if n <= 0 || dstlen < 4 then 0 else if n < (dstlen - 2) / 2 then n else (dstlen - 2) / 2
  }

  /** Those bytes are written that leave room for two more characters behind their own. */
  lemma FitMeans(n: int, dstlen: int, k: nat)
    ensures k <= Fit(n, dstlen) <==> k == 0 || (k <= n && 2 * k + 2 <= dstlen)
  {
  }

  lemma FitStep(n: int, dstlen: int, k: nat)
    requires k <= Fit(n, dstlen)
    ensures k < Fit(n, dstlen) <==> k < n && 2 * k + 3 < dstlen
    ensures Fit(n, dstlen) == 0 || (Fit(n, dstlen) <= n && 2 * Fit(n, dstlen) + 2 <= dstlen)
  {
  }

  /** The text is two lower-case digits for each byte, the first one worth sixteen times its value. */
  lemma {:induction false} TextMeans(bin: seq<Byte>, k: nat)
    requires k < |bin|
    ensures |Text(bin)| == 2 * |bin|
    ensures var c, d := Text(bin)[2 * k], Text(bin)[2 * k + 1];
      && c in "0123456789abcdef" && d in "0123456789abcdef"
      && Digit(c).Some? && Digit(d).Some?
      && 16 * Digit(c).value as int + Digit(d).value as int == bin[k] as int
  {
    hide Digit, HexDigit;
    if k == 0 {
      HexDigitMeans(High(bin[0]));
      HexDigitMeans(Low(bin[0]));
      if |bin| > 1 {
        TextMeans(bin[1..], 0);
      }
    } else {
      TextMeans(bin[1..], k - 1);
      assert Text(bin)[2 * k] == Text(bin[1..])[2 * (k - 1)];
      assert Text(bin)[2 * k + 1] == Text(bin[1..])[2 * (k - 1) + 1];
    }
  }

  lemma HexDigitMeans(n: Nibble)
    ensures HexDigit(n) in "0123456789abcdef" && Digit(HexDigit(n)) == Some(n)
  {
  }

  lemma TextStep(bin: seq<Byte>, k: nat)
    requires k < |bin|
    ensures Text(bin[..k + 1]) == Text(bin[..k]) + [HexDigit(High(bin[k])), HexDigit(Low(bin[k]))]
    ensures |Text(bin[..k])| == 2 * k
  {
    hide *;
    TextSnoc(bin[..k], bin[k]);
    assert bin[..k + 1] == bin[..k] + [bin[k]];
  }

  lemma NoText(bin: seq<Byte>)
    ensures Text(bin[..0]) == []
  {
  }

  /** rd_bin2hex: two digits for each byte that fits, and a NUL. */
  method Bin2Hex(bin: seq<Byte>, inlen: int, dst: array<char>, dstlen: int) returns (r: nat)
    requires inlen <= |bin| && dstlen <= dst.Length
    modifies dst
    ensures r == 2 * Fit(inlen, dstlen) && Fit(inlen, dstlen) <= |bin| && r <= dst.Length
    ensures dst[..r] == Text(bin[..Fit(inlen, dstlen)])
    ensures dstlen >= 1 ==> r < dstlen && dst[r] == '\0'
    ensures forall k :: r <= k < dst.Length && (k != r || dstlen <= r) ==> dst[k] == old(dst[k])
  {
    hide *;
    var s, d := 0, 0;
    NoText(bin);
    FitStep(inlen, dstlen, 0);
    while s < inlen && d + 3 < dstlen
      invariant d == 2 * s && s <= Fit(inlen, dstlen) && s <= |bin| && d <= dst.Length
      invariant dst[..d] == Text(bin[..s])
      invariant forall k :: d <= k < dst.Length ==> dst[k] == old(dst[k])
      decreases inlen - s
    {
      FitStep(inlen, dstlen, s);
      TextStep(bin, s);
      ghost var before := dst[..d];
      dst[d] := HexDigit(High(bin[s]));
      d := d + 1;
      dst[d] := HexDigit(Low(bin[s]));
      d := d + 1;
      assert dst[..d] == before + [HexDigit(High(bin[s])), HexDigit(Low(bin[s]))];
      s := s + 1;
    }
    FitStep(inlen, dstlen, s);
    ghost var before := dst[..d];
    if d < dstlen {
      dst[d] := '\0';
    }
    assert dst[..d] == before;
    r := d;
  }

  /** Every byte is encoded exactly when the text has room for two characters more than the digits. */
  lemma AllFitIff(n: nat, dstlen: int)
    ensures Fit(n, dstlen) == n <==> n == 0 || dstlen >= 2 * n + 2
  {
  }

  /** The documented size of 2n + 1 loses exactly the last byte. */
  lemma DocumentedSizeLosesOne(n: nat)
    requires n >= 1
    ensures Fit(n, 2 * n + 1) == n - 1
  {
  }

  // ---------- Round trip and separators ----------

  lemma DigitOfHexDigit(n: Nibble)
    ensures Digit(HexDigit(n)) == Some(n) && !Ignored(HexDigit(n)) && HexDigit(n) != '\0'
  {
  }

  lemma JoinHalves(b: Byte)
    ensures Byte2(High(b), Low(b)) == b
  {
  }

  lemma DigitsStep(text: string)
    ensures text == [] ==> Digits(text) == []
    ensures text != [] && Ignored(text[0]) ==> Digits(text) == Digits(text[1..])
    ensures text != [] && Digit(text[0]).Some? ==> Digits(text) == [Digit(text[0]).value] + Digits(text[1..])
    ensures text != [] && !Ignored(text[0]) && Digit(text[0]).None? ==> Digits(text) == []
  {
  }

  lemma PackStep(ds: seq<Nibble>)
    ensures |ds| < 2 ==> Pack(ds) == []
    ensures |ds| >= 2 ==> Pack(ds) == [Byte2(ds[0], ds[1])] + Pack(ds[2..])
  {
  }

  lemma {:induction false} TextDecodes(bin: seq<Byte>, tail: string)
    requires tail == [] || tail[0] == '\0'
    ensures Pack(Digits(Text(bin) + tail)) == bin && |Digits(Text(bin) + tail)| == 2 * |bin|
    decreases |bin|
  {
    hide HexDigit, High, Low, Byte2, Ignored, Digit, Digits, Pack;
    PackStep(Digits(Text(bin) + tail));
    if bin == [] {
      assert Text(bin) + tail == tail;
      DigitsStep(tail);
      NulStops('\0');
    } else {
      var t := Text(bin) + tail;
      assert t[0] == HexDigit(High(bin[0])) && t[1..][0] == HexDigit(Low(bin[0]));
      assert t[1..][1..] == Text(bin[1..]) + tail;
      DigitOfHexDigit(High(bin[0]));
      DigitOfHexDigit(Low(bin[0]));
      DigitsStep(t);
      DigitsStep(t[1..]);
      TextDecodes(bin[1..], tail);
      JoinHalves(bin[0]);
      assert Digits(t)[2..] == Digits(Text(bin[1..]) + tail);
    }
  }

  /** Encoding into 2n + 2 characters and decoding into n bytes gives the bytes back. */
  method ThereAndBack(bin: seq<Byte>, text: array<char>, out: array<Byte>)
    requires text.Length >= 2 * |bin| + 2 && out.Length >= |bin|
    modifies text, out
    ensures out[..|bin|] == bin
    ensures forall k :: |bin| <= k < out.Length ==> out[k] == old(out[k])
  {
    hide *;
    var n := Bin2Hex(bin, |bin|, text, text.Length);
    AllFitIff(|bin|, text.Length);
    FullText(bin, text[..], n);
    var r := Hex2Bin(text[..], -1, out, out.Length);
    HeldBytes(out[..], old(out[..]), Digits(text[..]), bin, r);
  }

  lemma FullText(bin: seq<Byte>, text: string, n: nat)
    requires n < |text| && bin[..|bin|] == bin && text[..n] == Text(bin) && text[n] == '\0'
    ensures Window(text, -1) == text && Pack(Digits(text)) == bin && |Digits(text)| == 2 * |bin|
  {
    TextDecodes(bin, text[n..]);
    assert text == text[..n] + text[n..];
  }

  lemma HeldBytes(dst: seq<Byte>, was: seq<Byte>, ds: seq<Nibble>, bin: seq<Byte>, r: nat)
    requires |ds| == 2 * |bin| && Pack(ds) == bin && |bin| <= |dst| && r == Count(|ds|, |dst|)
    requires Holds(dst, was, if r == |dst| then ds[..2 * r] else ds, r)
    ensures dst[..|bin|] == bin && forall k :: |bin| <= k < |dst| ==> dst[k] == was[k]
  {
    assert ds[..2 * |bin|] == ds;
  }

  function Strip(text: string): string {
    if text == [] then [] else if Ignored(text[0]) then Strip(text[1..]) else [text[0]] + Strip(text[1..])
  }

  /** Ignored characters make no difference: a text decodes as it does without them. */
  lemma {:induction false} SeparatorsDoNotMatter(text: string)
    ensures Digits(Strip(text)) == Digits(text)
    ensures forall k :: 0 <= k < |Strip(text)| ==> !Ignored(Strip(text)[k])
    decreases |text|
  {
    hide Ignored, Digit;
    if text != [] {
      SeparatorsDoNotMatter(text[1..]);
      if !Ignored(text[0]) {
        assert Strip(text)[1..] == Strip(text[1..]);
      }
    }
  }
}
