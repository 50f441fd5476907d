/**
 Lowercase Base16 (section 8 of RFC 4648) as Node's `Buffer.toString("hex")`
 emits it: two digits per byte, high nibble first, alphabet `0-9a-f`.

 `FromHex` is the canonical decoder: it accepts exactly the strings `ToHex`
 can produce, which is what makes string equality of two encodings the same
 thing as byte equality of what they encode.
 */
module Hex {
  import opened Wrappers

  type byte = b: nat | b < 256

  /** The digit Node writes for a nibble. */
  function HexDigit(n: nat): (c: char)
    requires n < 16
  {
    if n < 10 then ('0' as int + n) as char else ('a' as int + (n - 10)) as char
  }

  predicate IsLowerHexDigit(c: char) {
    ('0' <= c <= '9') || ('a' <= c <= 'f')
  }

  /** Every character is one of `0-9a-f`. */
  predicate IsLowerHex(s: string) {
    forall i :: 0 <= i < |s| ==> IsLowerHexDigit(s[i])
  }

  /** The nibble a lowercase hex digit stands for. */
  function DigitValue(c: char): (n: nat)
    requires IsLowerHexDigit(c)
    ensures n < 16
    ensures HexDigit(n) == c
  {
    if c <= '9' then c as int - '0' as int else c as int - 'a' as int + 10
  }

  lemma DigitValueOfHexDigit(n: nat)
    requires n < 16
    ensures IsLowerHexDigit(HexDigit(n))
    ensures DigitValue(HexDigit(n)) == n
  {
  }

  /** Lowercase Base16 encoding of a byte string. */
  function ToHex(bs: seq<byte>): (s: string)
    ensures |s| == 2 * |bs|
    ensures IsLowerHex(s)
  {
    if bs == [] then []
    else
      var rest := ToHex(bs[1..]);
      [HexDigit(bs[0] / 16), HexDigit(bs[0] % 16)] + rest
  }

  /** Inverse of `ToHex`: `None` for odd length or any character outside `0-9a-f`. */
  function FromHex(s: string): (r: Option<seq<byte>>)
    ensures r.Some? <==> |s| % 2 == 0 && IsLowerHex(s)
    ensures r.Some? ==> 2 * |r.value| == |s|
  {
    if |s| == 0 then Some([])
    else if |s| == 1 || !IsLowerHexDigit(s[0]) || !IsLowerHexDigit(s[1]) then None
    else
      match FromHex(s[2..])
      case None =>
        assert !IsLowerHex(s[2..]) || |s[2..]| % 2 != 0;
        None
      case Some(rest) =>
        assert IsLowerHex(s) by {
          forall i | 0 <= i < |s| ensures IsLowerHexDigit(s[i]) {
            if i >= 2 { assert s[i] == s[2..][i - 2]; }
          }
        }
        Some([DigitValue(s[0]) * 16 + DigitValue(s[1])] + rest)
  }

  /** Base16 places byte `i` at characters `2i` (high nibble) and `2i+1` (low nibble). */
  lemma {:induction false} ToHexAt(bs: seq<byte>, i: nat)
    requires i < |bs|
    ensures ToHex(bs)[2 * i] == HexDigit(bs[i] / 16)
    ensures ToHex(bs)[2 * i + 1] == HexDigit(bs[i] % 16)
  {
    if i > 0 {
      ToHexAt(bs[1..], i - 1);
    }
  }

  /**
   `s` is the Base16 form of `bs`, stated position by position: twice as long,
   byte `i` written at characters `2i` (high nibble) and `2i+1` (low nibble).
   */
  ghost predicate IsBase16Of(s: string, bs: seq<byte>) {
    && |s| == 2 * |bs|
    && forall i :: 0 <= i < |bs| ==> s[2 * i] == HexDigit(bs[i] / 16) && s[2 * i + 1] == HexDigit(bs[i] % 16)
  }

  /** `ToHex` is exactly the positional Base16 encoding. */
  lemma ToHexIsBase16(s: string, bs: seq<byte>)
    ensures s == ToHex(bs) <==> IsBase16Of(s, bs)
  {
    forall i | 0 <= i < |bs| ensures ToHex(bs)[2 * i] == HexDigit(bs[i] / 16) && ToHex(bs)[2 * i + 1] == HexDigit(bs[i] % 16) {
      ToHexAt(bs, i);
    }
    if IsBase16Of(s, bs) {
      forall k | 0 <= k < |s| ensures s[k] == ToHex(bs)[k] {
        var i := k / 2;
        assert s[2 * i] == HexDigit(bs[i] / 16) && s[2 * i + 1] == HexDigit(bs[i] % 16);
        if k % 2 == 0 {
          assert k == 2 * i;
        } else {
          assert k == 2 * i + 1;
        }
      }
    }
  }

  /** Decoding an encoding gives back the bytes. */
  lemma {:induction false} FromHexToHex(bs: seq<byte>)
    ensures FromHex(ToHex(bs)) == Some(bs)
  {
    if bs != [] {
      var s := ToHex(bs);
      FromHexToHex(bs[1..]);
      DigitValueOfHexDigit(bs[0] / 16);
      DigitValueOfHexDigit(bs[0] % 16);
      assert s[2..] == ToHex(bs[1..]);
      assert [bs[0]] + bs[1..] == bs;
    }
  }

  /** Every string the decoder accepts is the encoding of what it decodes to. */
  lemma {:induction false} ToHexFromHex(s: string)
    requires FromHex(s).Some?
    ensures ToHex(FromHex(s).value) == s
  {
    if |s| > 0 {
      var bs := FromHex(s).value;
      ToHexFromHex(s[2..]);
      var hi, lo := DigitValue(s[0]), DigitValue(s[1]);
      assert bs[0] == hi * 16 + lo;
      assert bs[0] / 16 == hi && bs[0] % 16 == lo;
      assert bs[1..] == FromHex(s[2..]).value;
      assert s == [s[0], s[1]] + s[2..];
    }
  }

  /** Two byte strings have the same encoding exactly when they are equal. */
  lemma ToHexInjective(a: seq<byte>, b: seq<byte>)
    ensures ToHex(a) == ToHex(b) <==> a == b
  {
    if ToHex(a) == ToHex(b) {
      FromHexToHex(a);
      FromHexToHex(b);
    }
  }

  /** A string equals the encoding of `bs` exactly when it decodes to `bs`. */
  lemma EqualsToHexIffDecodes(s: string, bs: seq<byte>)
    ensures s == ToHex(bs) <==> FromHex(s) == Some(bs)
  {
    FromHexToHex(bs);
    if FromHex(s) == Some(bs) {
      ToHexFromHex(s);
    }
  }
}
