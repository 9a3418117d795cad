/**
 * The hex-text codec inside `BinaryGeneratorWeb::update` (src/app.rs):
 * the per-keystroke decoder of the label into bytes, Rust's
 * `u8::from_str_radix(_, 16)` that it calls on every pair of characters,
 * and the `{:02X}` encoder used after a random generation.
 */
module HexCodec {
  import opened Wrappers

  /** Rust's `u8`. */
  newtype byte = b: int | 0 <= b < 256

  /** A hexadecimal digit in either case: `0-9`, `a-f`, `A-F`. */
  predicate IsHexDigit(c: char) {
    ('0' <= c <= '9') || ('a' <= c <= 'f') || ('A' <= c <= 'F')
  }

  /** The class the decoder accepts once the text is lowercased: `0-9`, `a-f`. */
  predicate IsLowerHexDigit(c: char) {
    ('0' <= c <= '9') || ('a' <= c <= 'f')
  }

  /** The alphabet of `{:02X}`: `0-9`, `A-F`. */
  predicate IsUpperHexDigit(c: char) {
    ('0' <= c <= '9') || ('A' <= c <= 'F')
  }

  /** The nibble a hex digit stands for, in either case (Rust's `char::to_digit(16)`). */
  function HexDigitValue(c: char): (n: nat)
    requires IsHexDigit(c)
    ensures n < 16
  {
    if '0' <= c <= '9' then c as nat - '0' as nat
    else if 'a' <= c <= 'f' then c as nat - 'a' as nat + 10
    else c as nat - 'A' as nat + 10
  }

  /** Two hex digits have the same value exactly when they are the same digit up to case. */
  lemma HexDigitValueUpToCase(a: char, b: char)
    requires IsHexDigit(a) && IsHexDigit(b)
    ensures HexDigitValue(a) == HexDigitValue(b) <==> ToAsciiLower(a) == ToAsciiLower(b)
  {
  }

  /** The byte a pair of hex digits stands for, high nibble first. */
  function PairValue(hi: char, lo: char): byte
    requires IsHexDigit(hi) && IsHexDigit(lo)
  {
    (16 * HexDigitValue(hi) + HexDigitValue(lo)) as byte
  }

  /**
   * Rust's `char::to_ascii_lowercase`: only `A-Z` change. Lowercasing keeps
   * exactly the hex digits hex digits, with the same value.
   */
  function ToAsciiLower(c: char): (r: char)
    ensures !('A' <= r <= 'Z')
    ensures !('A' <= c <= 'Z') ==> r == c
    ensures IsLowerHexDigit(r) <==> IsHexDigit(c)
    ensures IsHexDigit(c) ==> HexDigitValue(r) == HexDigitValue(c)
  {
    if 'A' <= c <= 'Z' then (c as int + 32) as char else c
  }

  /**
   * Rust's `str::to_ascii_lowercase`, character by character: the length is
   * kept, no `A-Z` is left, and position by position a character is in
   * `0-9a-f` exactly when the original was a hex digit of either case.
   */
  function ToAsciiLowercase(s: string): (r: string)
    ensures |r| == |s|
    ensures forall i :: 0 <= i < |r| ==> !('A' <= r[i] <= 'Z')
    ensures forall i :: 0 <= i < |r| ==> (IsLowerHexDigit(r[i]) <==> IsHexDigit(s[i]))
  {
    seq(|s|, i requires 0 <= i < |s| => ToAsciiLower(s[i]))
  }

  // ---------------------------------------------------------------------
  // u8::from_str_radix(s, 16)
  // ---------------------------------------------------------------------

  /**
   * Rust's `u8::from_str_radix(s, 16)`, with `Err` as `None`: the empty
   * string and a lone sign are errors, one leading `+` is skipped, a
   * leading `-` is an invalid digit for an unsigned type, every other
   * character must be a hex digit of either case, and a value above 255
   * overflows.
   */
  function FromStrRadix16(s: string): Option<byte> {
    if |s| == 0 then None
    else if (s[0] == '+' || s[0] == '-') && |s| == 1 then None
    else if s[0] == '+' then AccumulateDigits(s[1..], 0)
    else AccumulateDigits(s, 0)
  }

  /** The digit loop of `from_str_radix`: `acc * 16 + digit`, checked for overflow. */
  function AccumulateDigits(digits: string, acc: byte): Option<byte>
    decreases |digits|
  {
    if |digits| == 0 then Some(acc)
    else if !IsHexDigit(digits[0]) then None
    else
      var next := acc as int * 16 + HexDigitValue(digits[0]);
      if next < 256 then AccumulateDigits(digits[1..], next as byte) else None
  }

  /** A character that is not a hex digit makes the digit loop fail, wherever it is. */
  lemma {:induction false} AccumulateDigitsRejectsNonHex(digits: string, acc: byte, i: nat)
    requires i < |digits| && !IsHexDigit(digits[i])
    ensures AccumulateDigits(digits, acc) == None
    decreases i
  {
    if i > 0 && IsHexDigit(digits[0]) {
      var next := acc as int * 16 + HexDigitValue(digits[0]);
      if next < 256 {
        assert digits[1..][i - 1] == digits[i];
        AccumulateDigitsRejectsNonHex(digits[1..], next as byte, i - 1);
      }
    }
  }

  /** `from_str_radix` fails on any non-hex character other than one leading `+`. */
  lemma FromStrRadixRejectsNonHex(s: string, i: nat)
    requires i < |s| && !IsHexDigit(s[i])
    requires !(i == 0 && s[0] == '+')
    ensures FromStrRadix16(s) == None
  {
    if |s| > 1 && s[0] == '+' {
      assert s[1..][i - 1] == s[i];
      AccumulateDigitsRejectsNonHex(s[1..], 0, i - 1);
    } else if !(|s| == 1 && (s[0] == '+' || s[0] == '-')) {
      AccumulateDigitsRejectsNonHex(s, 0, i);
    }
  }

  /** The edge cases of `from_str_radix(_, 16)` for `u8`. */
  lemma FromStrRadixEdgeCases()
    ensures FromStrRadix16("") == None
    ensures FromStrRadix16("+") == None && FromStrRadix16("-") == None
    ensures FromStrRadix16("-a") == None && FromStrRadix16("++") == None
    ensures FromStrRadix16("100") == None
    ensures FromStrRadix16("0ff") == Some(255)
    ensures FromStrRadix16("+F") == Some(15)
  {
  }

  /** Two hex digits always parse, to their pair value: the decoder's `Err` arm is dead once both passed the class check. */
  lemma FromStrRadixOfHexPair(hi: char, lo: char)
    requires IsHexDigit(hi) && IsHexDigit(lo)
    ensures FromStrRadix16([hi, lo]) == Some(PairValue(hi, lo))
  {
    var hiValue := HexDigitValue(hi) as byte;
    assert [hi, lo][0] == hi && [hi, lo][1..] == [lo];
    assert AccumulateDigits([hi, lo], 0) == AccumulateDigits([lo], hiValue);
    assert [lo][1..] == [];
    assert AccumulateDigits([lo], hiValue) == AccumulateDigits([], PairValue(hi, lo));
  }

  /** `from_str_radix` alone would accept a sign: the class check is what rejects `"+a"`. */
  lemma SignIsRejectedOnlyByClassCheck()
    ensures FromStrRadix16("+a") == Some(10)
    ensures Decode("+a") == None
  {
  }

  // ---------------------------------------------------------------------
  // Decoding
  // ---------------------------------------------------------------------

  /**
   * What the decode loop computes: characters are taken two at a time
   * (high nibble first), a non-hex character anywhere makes the whole
   * result `None`, and a final unpaired hex digit is dropped.
   */
  function Decode(text: string): (r: Option<seq<byte>>)
    ensures r.Some? ==> |r.value| == |text| / 2
    decreases |text|
  {
    if |text| == 0 then Some([])
    else if !IsHexDigit(text[0]) then None
    else if |text| == 1 then Some([])
    else if !IsHexDigit(text[1]) then None
    else
      match Decode(text[2..])
      case None => None
      case Some(rest) => Some([PairValue(text[0], text[1])] + rest)
  }

  /** Both decodes must succeed for their concatenation to. */
  function Join(a: Option<seq<byte>>, b: Option<seq<byte>>): Option<seq<byte>> {
    if a.Some? && b.Some? then Some(a.value + b.value) else None
  }

  /** Decoding splits at any even position. */
  lemma {:induction false} DecodeConcat(p: string, q: string)
    requires |p| % 2 == 0
    ensures Decode(p + q) == Join(Decode(p), Decode(q))
    decreases |p|
  {
    if |p| == 0 {
      assert p + q == q;
      if Decode(q).Some? {
        assert [] + Decode(q).value == Decode(q).value;
      }
    } else {
      var rest := p[2..];
      assert (p + q)[0] == p[0] && (p + q)[1] == p[1];
      assert (p + q)[2..] == rest + q;
      DecodeConcat(rest, q);
      if IsHexDigit(p[0]) && IsHexDigit(p[1]) && Decode(rest).Some? && Decode(q).Some? {
        var x := PairValue(p[0], p[1]);
        assert Decode(p) == Some([x] + Decode(rest).value);
        assert Decode(p + q) == Some([x] + (Decode(rest).value + Decode(q).value));
        assert [x] + (Decode(rest).value + Decode(q).value) == ([x] + Decode(rest).value) + Decode(q).value;
      }
    }
  }

  /** The decode is `None` exactly when some character, anywhere, is not a hex digit. */
  lemma {:induction false} DecodeNoneIff(text: string)
    ensures Decode(text).None? <==> exists i :: 0 <= i < |text| && !IsHexDigit(text[i])
    decreases |text|
  {
    if |text| == 0 {
    } else if !IsHexDigit(text[0]) {
    } else if |text| == 1 {
    } else if !IsHexDigit(text[1]) {
    } else {
      var rest := text[2..];
      DecodeNoneIff(rest);
      if exists i :: 0 <= i < |text| && !IsHexDigit(text[i]) {
        var i :| 0 <= i < |text| && !IsHexDigit(text[i]);
        assert rest[i - 2] == text[i];
      }
      if exists j :: 0 <= j < |rest| && !IsHexDigit(rest[j]) {
        var j :| 0 <= j < |rest| && !IsHexDigit(rest[j]);
        assert text[j + 2] == rest[j];
      }
    }
  }

  /** Byte `k` of a valid decode is the pair at positions `2k`, `2k+1`. */
  lemma {:induction false} DecodeAt(text: string, k: nat)
    requires Decode(text).Some? && k < |text| / 2
    ensures IsHexDigit(text[2 * k]) && IsHexDigit(text[2 * k + 1])
    ensures Decode(text).value[k] == PairValue(text[2 * k], text[2 * k + 1])
    decreases k
  {
    if k > 0 {
      var rest := text[2..];
      DecodeAt(rest, k - 1);
      assert rest[2 * (k - 1)] == text[2 * k];
      assert rest[2 * (k - 1) + 1] == text[2 * k + 1];
    }
  }

  /** Case does not matter: texts that agree after lowercasing decode alike. */
  lemma {:induction false} DecodeIgnoresCase(s: string, t: string)
    requires |s| == |t|
    requires forall i :: 0 <= i < |s| ==> ToAsciiLower(s[i]) == ToAsciiLower(t[i])
    ensures Decode(s) == Decode(t)
    decreases |s|
  {
    if |s| >= 2 {
      assert ToAsciiLower(s[0]) == ToAsciiLower(t[0]);
      assert ToAsciiLower(s[1]) == ToAsciiLower(t[1]);
      var s', t' := s[2..], t[2..];
      forall i | 0 <= i < |s'| ensures ToAsciiLower(s'[i]) == ToAsciiLower(t'[i]) {
        assert s'[i] == s[i + 2] && t'[i] == t[i + 2];
      }
      DecodeIgnoresCase(s', t');
    } else if |s| == 1 {
      assert ToAsciiLower(s[0]) == ToAsciiLower(t[0]);
    }
  }

  /** In particular lowercasing the whole text first does not change the decode. */
  lemma DecodeOfLowercase(text: string)
    ensures Decode(ToAsciiLowercase(text)) == Decode(text)
  {
    var lower := ToAsciiLowercase(text);
    forall i | 0 <= i < |lower| ensures ToAsciiLower(lower[i]) == ToAsciiLower(text[i]) {
      assert !('A' <= lower[i] <= 'Z');
    }
    DecodeIgnoresCase(lower, text);
  }

  /** One more character after an even prefix: checked, never paired. */
  lemma DecodeSnoc(p: string, c: char)
    requires |p| % 2 == 0
    ensures Decode(p + [c]) == if IsHexDigit(c) then Decode(p) else None
  {
    DecodeConcat(p, [c]);
    assert Decode([c]) == if IsHexDigit(c) then Some([]) else None;
    if Decode(p).Some? {
      assert Decode(p).value + [] == Decode(p).value;
    }
  }

  /** A text of one pair decodes to its pair value, or to `None`. */
  lemma DecodePair(hi: char, lo: char)
    ensures Decode([hi, lo]) ==
      if IsHexDigit(hi) && IsHexDigit(lo) then Some([PairValue(hi, lo)]) else None
  {
    var pair := [hi, lo];
    assert pair[0] == hi && pair[1] == lo && pair[2..] == [];
    if IsHexDigit(hi) && IsHexDigit(lo) {
      var b := PairValue(hi, lo);
      assert Decode(pair) == Some([b] + []);
      assert [b] + [] == [b];
    }
  }

  /**
   * The decode loop of src/app.rs as written: lowercase, then walk the
   * characters keeping an accumulator that any bad character poisons and a
   * pending buffer that is parsed with `from_str_radix` at every odd index.
   */
  method DecodeText(text: string) returns (decoded: Option<seq<byte>>)
    ensures decoded == Decode(text)
  {
    var lower := ToAsciiLowercase(text);
    decoded := Some([]);
    var pending: string := [];
    var i := 0;
    while i < |lower|
      invariant 0 <= i <= |lower| == |text|
      invariant pending == if i % 2 == 1 then [lower[i - 1]] else []
      invariant decoded == Decode(text[..i])
    {
      var c := lower[i];
      if !IsLowerHexDigit(c) {
        decoded := None;
      }
      pending := pending + [c];
      if i % 2 == 1 {
        ghost var p := text[..i - 1];
        assert text[..i] == p + [text[i - 1]];
        assert text[..i + 1] == p + [text[i - 1], text[i]];
        DecodeSnoc(p, text[i - 1]);
        DecodePair(text[i - 1], text[i]);
        DecodeConcat(p, [text[i - 1], text[i]]);
        if IsHexDigit(text[i - 1]) && IsHexDigit(text[i]) {
          FromStrRadixOfHexPair(lower[i - 1], c);
        }
        match FromStrRadix16(pending) {
          case Some(v) =>
            match decoded {
              case Some(a) => decoded := Some(a + [v]);
              case None =>
            }
          case None =>
            decoded := None;
        }
        pending := [];
      } else {
        assert text[..i + 1] == text[..i] + [text[i]];
        DecodeSnoc(text[..i], text[i]);
      }
      i := i + 1;
    }
    assert text[..i] == text;
  }

  // ---------------------------------------------------------------------
  // Encoding
  // ---------------------------------------------------------------------

  /** The uppercase digit for a nibble. */
  function UpperHexDigit(n: nat): (c: char)
    requires n < 16
    ensures IsUpperHexDigit(c) && IsHexDigit(c) && HexDigitValue(c) == n
  {
    if n < 10 then ('0' as int + n) as char else ('A' as int + n - 10) as char
  }

  /** `format!("{:02X}", b)`: two uppercase digits that read back as `b`. */
  function ByteToHex(b: byte): (s: string)
    ensures |s| == 2 && IsUpperHexDigit(s[0]) && IsUpperHexDigit(s[1])
    ensures IsHexDigit(s[0]) && IsHexDigit(s[1]) && PairValue(s[0], s[1]) == b
  {
    [UpperHexDigit(b as nat / 16), UpperHexDigit(b as nat % 16)]
  }

  /** `bytes.iter().map(|v| format!("{:02X}", v)).collect::<String>()`. */
  function Encode(bytes: seq<byte>): (s: string)
    ensures |s| == 2 * |bytes|
    ensures forall i :: 0 <= i < |s| ==> IsUpperHexDigit(s[i])
  {
    if |bytes| == 0 then [] else ByteToHex(bytes[0]) + Encode(bytes[1..])
  }

  /** The encoding keeps the order: characters `2k`, `2k+1` are byte `k`. */
  lemma {:induction false} EncodeAt(bytes: seq<byte>, k: nat)
    requires k < |bytes|
    ensures Encode(bytes)[2 * k..2 * k + 2] == ByteToHex(bytes[k])
    decreases k
  {
    if k > 0 {
      EncodeAt(bytes[1..], k - 1);
      assert Encode(bytes)[2 * k..2 * k + 2] == Encode(bytes[1..])[2 * (k - 1)..2 * (k - 1) + 2];
    }
  }

  /** Round trip: every byte sequence decodes back from its encoding. */
  lemma {:induction false} DecodeEncode(bytes: seq<byte>)
    ensures Decode(Encode(bytes)) == Some(bytes)
    decreases |bytes|
  {
    if |bytes| > 0 {
      var s := Encode(bytes);
      var h := ByteToHex(bytes[0]);
      assert s[0] == h[0] && s[1] == h[1];
      assert s[2..] == Encode(bytes[1..]);
      DecodeEncode(bytes[1..]);
      assert [bytes[0]] + bytes[1..] == bytes;
    }
  }

  /** A hex digit re-encoded from its value is the same digit up to case. */
  lemma UpperHexDigitOfValue(c: char)
    requires IsHexDigit(c)
    ensures ToAsciiLower(UpperHexDigit(HexDigitValue(c))) == ToAsciiLower(c)
  {
  }

  /** The nibbles of a pair value are the nibbles it was built from. */
  lemma PairValueNibbles(hi: char, lo: char)
    requires IsHexDigit(hi) && IsHexDigit(lo)
    ensures PairValue(hi, lo) as nat / 16 == HexDigitValue(hi)
    ensures PairValue(hi, lo) as nat % 16 == HexDigitValue(lo)
  {
  }

  /**
   * Re-encoding a valid decode gives back the text, canonically uppercase,
   * without its unpaired final digit.
   */
  lemma {:induction false} EncodeDecode(text: string)
    requires Decode(text).Some?
    ensures |Encode(Decode(text).value)| == |text| - |text| % 2
    ensures forall i :: 0 <= i < |text| - |text| % 2 ==>
      ToAsciiLower(Encode(Decode(text).value)[i]) == ToAsciiLower(text[i])
    decreases |text|
  {
    if |text| >= 2 {
      var rest := text[2..];
      EncodeDecode(rest);
      var b := PairValue(text[0], text[1]);
      assert Decode(text).value == [b] + Decode(rest).value;
      var e := Encode(Decode(text).value);
      var er := Encode(Decode(rest).value);
      assert ([b] + Decode(rest).value)[1..] == Decode(rest).value;
      assert e == ByteToHex(b) + er;
      PairValueNibbles(text[0], text[1]);
      UpperHexDigitOfValue(text[0]);
      UpperHexDigitOfValue(text[1]);
      forall i | 0 <= i < |text| - |text| % 2
        ensures ToAsciiLower(e[i]) == ToAsciiLower(text[i])
      {
        if i >= 2 {
          assert e[i] == er[i - 2] && text[i] == rest[i - 2];
        }
      }
    }
  }

  /** The examples the codec is documented with, and the app's default label. */
  lemma CodecExamples()
    ensures Decode("") == Some([])
    ensures Decode("0FFF") == Some([0x0F, 0xFF])
    ensures Decode("0fff") == Some([0x0F, 0xFF])
    ensures Decode("0G") == None
    ensures Decode("ABC") == Some([0xAB])
    ensures Encode([0x0F, 0xFF]) == "0FFF"
  {
    assert PairValue('F', 'F') == 0xFF && PairValue('0', 'F') == 0x0F;
    assert PairValue('f', 'f') == 0xFF && PairValue('0', 'f') == 0x0F;
    assert PairValue('A', 'B') == 0xAB;
    var expected: seq<byte> := [0x0F, 0xFF];
    assert [0x0F as byte] + [0xFF as byte] == expected;
    assert "0FFF" == ['0', 'F'] + ['F', 'F'];
    DecodePair('0', 'F');
    DecodePair('F', 'F');
    DecodeConcat(['0', 'F'], ['F', 'F']);
    assert "0fff" == ['0', 'f'] + ['f', 'f'];
    DecodePair('0', 'f');
    DecodePair('f', 'f');
    DecodeConcat(['0', 'f'], ['f', 'f']);
    assert "0G" == ['0', 'G'];
    DecodePair('0', 'G');
    assert "ABC" == ['A', 'B'] + ['C'];
    DecodePair('A', 'B');
    DecodeSnoc(['A', 'B'], 'C');
    assert [0x0F, 0xFF][1..] == [0xFF as byte];
  }
}
