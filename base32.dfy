/**
 * Base32 with the alphabet of section 6 of RFC 4648 (`A`-`Z` for 0-25,
 * `2`-`7` for 26-31), restricted to whole 40-bit quanta: every 5 bytes
 * become 8 symbols, so no padding arises. A 20-byte SHA-1 value is four
 * quanta, 32 symbols.
 */
module Base32 {
  import opened Text

  const ALPHABET: string := "ABCDEFGHIJKLMNOPQRSTUVWXYZ234567"

  predicate IsSymbol(c: char) {
    ('A' <= c <= 'Z') || ('2' <= c <= '7')
  }

  predicate AllSymbols(s: string) {
    forall i :: 0 <= i < |s| ==> IsSymbol(s[i])
  }

  /** The value of a symbol: its position in the alphabet. */
  function SymbolValue(c: char): (v: nat)
    requires IsSymbol(c)
    ensures v < 32 && ALPHABET[v] == c
  {
    if 'A' <= c <= 'Z' then c as int - 'A' as int else c as int - '2' as int + 26
  }

  lemma AlphabetSymbols(v: nat)
    requires v < 32
    ensures IsSymbol(ALPHABET[v]) && SymbolValue(ALPHABET[v]) == v
  {
  }

  predicate AllBelow(ds: seq<nat>, b: nat) {
    forall i :: 0 <= i < |ds| ==> ds[i] < b
  }

  /** The values of a string of symbols. */
  function SymbolValues(t: string): (ds: seq<nat>)
    requires AllSymbols(t)
    ensures |ds| == |t| && AllBelow(ds, 32)
  {
    seq(|t|, i requires 0 <= i < |t| => SymbolValue(t[i]))
  }

  /** The symbols with values `ds`. */
  function Symbols(ds: seq<nat>): (t: string)
    requires AllBelow(ds, 32)
    ensures |t| == |ds|
  {
    seq(|ds|, i requires 0 <= i < |ds| => ALPHABET[ds[i]])
  }

  /** The bytes with values `ds`. */
  function Bytes(ds: seq<nat>): (bytes: seq<U8>)
    requires AllBelow(ds, 256)
    ensures |bytes| == |ds|
  {
    seq(|ds|, i requires 0 <= i < |ds| => ds[i] as U8)
  }

  function Pow(b: nat, k: nat): (p: nat)
    requires b >= 1
    ensures p >= 1
  {
    if k == 0 then 1 else Pow(b, k - 1) * b
  }

  /** The number written by digits `ds` in base `b`, most significant first. */
  function FromDigits(ds: seq<nat>, b: nat): nat
  {
    if ds == [] then 0 else FromDigits(ds[..|ds| - 1], b) * b + ds[|ds| - 1]
  }

  /** The last `n` base-`b` digits of `v`, most significant first. */
  function ToDigits(v: nat, b: nat, n: nat): (ds: seq<nat>)
    requires b >= 2
    ensures |ds| == n && AllBelow(ds, b)
    decreases n
  {
    if n == 0 then [] else ToDigits(v / b, b, n - 1) + [v % b]
  }

  lemma MulMonotone(x: nat, y: nat, b: nat)
    requires x <= y
    ensures x * b <= y * b
  {
  }

  lemma DivBelow(v: nat, b: nat, p: nat)
    requires b >= 1 && v < p * b
    ensures v / b < p
  {
    var q := v / b;
    assert v == q * b + v % b;
    if q >= p {
      MulMonotone(p, q, b);
    }
  }

  lemma DivModIdentity(v: nat, b: nat)
    requires b >= 1
    ensures v == (v / b) * b + v % b
  {
  }

  lemma DivModOfDigit(x: nat, d: nat, b: nat)
    requires d < b
    ensures (x * b + d) / b == x && (x * b + d) % b == d
  {
    var v := x * b + d;
    var q, r := v / b, v % b;
    assert v == q * b + r;
    assert (x + 1) * b == x * b + b;
    assert (q + 1) * b == q * b + b;
    if q > x {
      MulMonotone(x + 1, q, b);
    } else if q < x {
      MulMonotone(q + 1, x, b);
    }
  }

  lemma {:induction false} FromDigitsBound(ds: seq<nat>, b: nat)
    requires b >= 2 && AllBelow(ds, b)
    ensures FromDigits(ds, b) < Pow(b, |ds|)
  {
    if ds != [] {
      var init := ds[..|ds| - 1];
      var x := FromDigits(init, b);
      FromDigitsBound(init, b);
      MulMonotone(x + 1, Pow(b, |init|), b);
      assert (x + 1) * b == x * b + b;
    }
  }

  lemma FromDigitsSnoc(init: seq<nat>, d: nat, b: nat)
    ensures FromDigits(init + [d], b) == FromDigits(init, b) * b + d
  {
    assert (init + [d])[..|init|] == init;
  }

  /** Reading back the digits of a number below `b^n` gives the number. */
  lemma {:induction false} FromToDigits(v: nat, b: nat, n: nat)
    requires b >= 2 && v < Pow(b, n)
    ensures FromDigits(ToDigits(v, b, n), b) == v
    decreases n
  {
    if n > 0 {
      var q, r := v / b, v % b;
      DivBelow(v, b, Pow(b, n - 1));
      FromToDigits(q, b, n - 1);
      FromDigitsSnoc(ToDigits(q, b, n - 1), r, b);
      DivModIdentity(v, b);
    }
  }

  /** Writing the value of a digit string gives the digits back. */
  lemma {:induction false} ToFromDigits(ds: seq<nat>, b: nat)
    requires b >= 2 && AllBelow(ds, b)
    ensures ToDigits(FromDigits(ds, b), b, |ds|) == ds
  {
    if ds != [] {
      var init := ds[..|ds| - 1];
      ToFromDigits(init, b);
      DivModOfDigit(FromDigits(init, b), ds[|ds| - 1], b);
      assert ds == init + [ds[|ds| - 1]];
    }
  }

  /** Five bytes and eight symbols both hold 40 bits. */
  lemma QuantumWidth()
    ensures Pow(256, 5) == Pow(32, 8)
  {
    assert Pow(256, 5) == 0x100_0000_0000;
    assert Pow(32, 8) == 0x100_0000_0000;
  }

  /** Five bytes read as one 40-bit number, written as eight symbols. */
  function EncodeQuantum(block: seq<U8>): (s: string)
    requires |block| == 5
    ensures |s| == 8
  {
    Symbols(ToDigits(FromDigits(block, 256), 32, 8))
  }

  /** Eight symbols read as one 40-bit number, written as five bytes. */
  function DecodeQuantum(s: string): (block: seq<U8>)
    requires |s| == 8 && AllSymbols(s)
    ensures |block| == 5
  {
    Bytes(ToDigits(FromDigits(SymbolValues(s), 32), 256, 5))
  }

  lemma SymbolValuesOfSymbols(ds: seq<nat>)
    requires AllBelow(ds, 32)
    ensures AllSymbols(Symbols(ds)) && SymbolValues(Symbols(ds)) == ds
  {
    var t := Symbols(ds);
    forall i | 0 <= i < |ds|
      ensures IsSymbol(t[i]) && SymbolValue(t[i]) == ds[i]
    {
      AlphabetSymbols(ds[i]);
    }
  }

  lemma SymbolsOfSymbolValues(t: string)
    requires AllSymbols(t)
    ensures Symbols(SymbolValues(t)) == t
  {
  }

  lemma DecodeEncodeQuantum(block: seq<U8>)
    requires |block| == 5
    ensures AllSymbols(EncodeQuantum(block)) && DecodeQuantum(EncodeQuantum(block)) == block
  {
    var ds := ToDigits(FromDigits(block, 256), 32, 8);
    SymbolValuesOfSymbols(ds);
    FromDigitsBound(block, 256);
    QuantumWidth();
    FromToDigits(FromDigits(block, 256), 32, 8);
    ToFromDigits(block, 256);
    var bytes := ToDigits(FromDigits(block, 256), 256, 5);
    assert Bytes(bytes) == block;
  }

  lemma EncodeDecodeQuantum(s: string)
    requires |s| == 8 && AllSymbols(s)
    ensures EncodeQuantum(DecodeQuantum(s)) == s
  {
    var ds := SymbolValues(s);
    var v := FromDigits(ds, 32);
    FromDigitsBound(ds, 32);
    QuantumWidth();
    var bytes := ToDigits(v, 256, 5);
    assert DecodeQuantum(s) == bytes;
    FromToDigits(v, 256, 5);
    ToFromDigits(ds, 32);
    SymbolsOfSymbolValues(s);
  }

  /** Encoding of `n` whole quanta. */
  function Encode(data: seq<U8>, n: nat): (s: string)
    requires |data| == 5 * n
    ensures |s| == 8 * n
  {
    if n == 0 then "" else EncodeQuantum(data[..5]) + Encode(data[5..], n - 1)
  }

  /** Decoding of `n` whole quanta, without padding. */
  function Decode(s: string, n: nat): (data: seq<U8>)
    requires |s| == 8 * n && AllSymbols(s)
    ensures |data| == 5 * n
  {
    if n == 0 then [] else DecodeQuantum(s[..8]) + Decode(s[8..], n - 1)
  }

  /** Decoding undoes encoding, and the encoding uses only alphabet symbols. */
  lemma {:induction false} DecodeEncode(data: seq<U8>, n: nat)
    requires |data| == 5 * n
    ensures AllSymbols(Encode(data, n)) && Decode(Encode(data, n), n) == data
    decreases n
  {
    if n != 0 {
      var q := EncodeQuantum(data[..5]);
      var t := Encode(data[5..], n - 1);
      var s := Encode(data, n);
      assert s == q + t;
      DecodeEncodeQuantum(data[..5]);
      DecodeEncode(data[5..], n - 1);
      assert s[..8] == q && s[8..] == t;
      forall i | 0 <= i < |s|
        ensures IsSymbol(s[i])
      {
        if i >= 8 {
          assert s[i] == t[i - 8];
        }
      }
      calc {
        Decode(s, n);
        DecodeQuantum(q) + Decode(t, n - 1);
        data[..5] + data[5..];
        data;
      }
    }
  }

  lemma AllSymbolsSlices(s: string, k: nat)
    requires AllSymbols(s) && k <= |s|
    ensures AllSymbols(s[..k]) && AllSymbols(s[k..])
  {
    forall i | 0 <= i < |s| - k
      ensures IsSymbol(s[k..][i])
    {
      assert s[k..][i] == s[i + k];
    }
  }

  lemma EncodeCons(block: seq<U8>, rest: seq<U8>, n: nat)
    requires |block| == 5 && |rest| == 5 * n
    ensures Encode(block + rest, n + 1) == EncodeQuantum(block) + Encode(rest, n)
  {
    assert (block + rest)[..5] == block && (block + rest)[5..] == rest;
  }

  lemma DecodeCons(s: string, n: nat)
    requires n >= 1 && |s| == 8 * n && AllSymbols(s)
    ensures AllSymbols(s[..8]) && AllSymbols(s[8..])
    ensures Decode(s, n) == DecodeQuantum(s[..8]) + Decode(s[8..], n - 1)
  {
    AllSymbolsSlices(s, 8);
  }

  /** Encoding undoes decoding: a symbol string is the only encoding of its value. */
  lemma {:induction false} EncodeDecode(s: string, n: nat)
    requires |s| == 8 * n && AllSymbols(s)
    ensures Encode(Decode(s, n), n) == s
    decreases n
  {
    if n != 0 {
      EncodeDecodeStep(s, n);
    }
  }

  lemma ReencodeCons(s: string, n: nat)
    requires |s| == 8 * n && AllSymbols(s) && n >= 1
    ensures AllSymbols(s[..8]) && AllSymbols(s[8..])
    ensures Encode(Decode(s, n), n)
         == EncodeQuantum(DecodeQuantum(s[..8])) + Encode(Decode(s[8..], n - 1), n - 1)
  {
    DecodeCons(s, n);
    EncodeCons(DecodeQuantum(s[..8]), Decode(s[8..], n - 1), n - 1);
  }

  /** The inductive step of `EncodeDecode`: the first quantum, then the rest. */
  lemma EncodeDecodeStep(s: string, n: nat)
    requires |s| == 8 * n && AllSymbols(s) && n >= 1
    ensures Encode(Decode(s, n), n) == s
    decreases n, 0
  {
    assert s == s[..8] + s[8..];
    ReencodeCons(s, n);
    EncodeDecodeQuantum(s[..8]);
    EncodeDecode(s[8..], n - 1);
  }
}
