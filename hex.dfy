/**
  The re-encoding of the float column, agent_based/rc_mach_pro_var_table.py line 52:
  every character's code is formatted with '{:02x}' and the pieces are joined with ':'.
  DecodeOctets is the inverse, used to state the round trip.
 */
module Hex {
  import opened Options

  predicate IsLowerHexDigit(c: char) {
    '0' <= c <= '9' || 'a' <= c <= 'f'
  }

  function Digit(d: nat): (c: char)
    requires d < 16
    ensures IsLowerHexDigit(c)
  {
    if d < 10 then ('0' as nat + d) as char else ('a' as nat + (d - 10)) as char
  }

  /** The value of one lowercase hex digit; Digit undoes it. */
  function DigitValue(c: char): (r: Option<nat>)
    ensures r.Some? <==> IsLowerHexDigit(c)
    ensures r.Some? ==> r.value < 16 && Digit(r.value) == c
  {
    if '0' <= c <= '9' then Some(c as nat - '0' as nat)
    else if 'a' <= c <= 'f' then Some(c as nat - 'a' as nat + 10)
    else None
  }

  /** The base-16 digits of n, most significant first, with no leading zeros ("0" for zero). */
  function HexDigits(n: nat): (s: string)
    ensures |s| >= 1
    ensures forall i :: 0 <= i < |s| ==> IsLowerHexDigit(s[i])
    ensures n < 16 <==> |s| == 1
    ensures n >= 256 ==> |s| >= 3
    decreases n
  {
    if n < 16 then [Digit(n)] else HexDigits(n / 16) + [Digit(n % 16)]
  }

  /** '{:02x}'.format(n): lowercase hex, padded with zeros to at least two digits. */
  function Format02x(n: nat): (s: string)
    ensures forall i :: 0 <= i < |s| ==> IsLowerHexDigit(s[i])
    ensures n < 256 ==> s == [Digit(n / 16), Digit(n % 16)]
    ensures n >= 256 ==> |s| > 2
  {
    if n < 16 then ['0'] + HexDigits(n)
    else
      assert n < 256 ==> HexDigits(n / 16) == [Digit(n / 16)];
      HexDigits(n)
  }

  /** str.join: the parts with sep between each neighbouring pair. */
  function Join(sep: char, parts: seq<string>): string
    decreases |parts|
  {
    if |parts| == 0 then ""
    else if |parts| == 1 then parts[0]
    else parts[0] + [sep] + Join(sep, parts[1..])
  }

  /** The character codes of s (Python's ord). */
  function Codes(s: string): (r: seq<nat>)
    ensures |r| == |s|
    ensures forall i :: 0 <= i < |s| ==> r[i] == s[i] as nat
  {
    seq(|s|, i requires 0 <= i < |s| => s[i] as nat)
  }

  /** Every character code is below 256: the strings whose encoding has two digits per character. */
  predicate IsOctetString(s: string) {
    forall i :: 0 <= i < |s| ==> s[i] as nat < 256
  }

  /** ':'.join('{:02x}'.format(ord(x)) for x in s) */
  function EncodeOctets(s: string): string {
    Join(':', seq(|s|, i requires 0 <= i < |s| => Format02x(s[i] as nat)))
  }

  /** The value of a two-digit segment. */
  function DecodeByte(hi: char, lo: char): (r: Option<nat>)
    ensures r.Some? ==> r.value < 256 && Format02x(r.value) == [hi, lo]
  {
    match (DigitValue(hi), DigitValue(lo))
    case (Some(h), Some(l)) => Some(h * 16 + l)
    case _ => None
  }

  /** Reads colon-separated two-digit lowercase hex segments back into codes. */
  function DecodeOctets(t: string): Option<seq<nat>>
    decreases |t|
  {
    if |t| == 0 then Some([])
    else if |t| < 2 then None
    else match DecodeByte(t[0], t[1])
      case None => None
      case Some(b) =>
        if |t| == 2 then Some([b])
        else if t[2] == ':' && |t| > 3 then
          match DecodeOctets(t[3..])
          case None => None
          case Some(rest) => Some([b] + rest)
        else None
  }

  /** The encoding of a string is the first character's segment, then ':' and the rest's encoding. */
  lemma EncodeOctetsUnfold(s: string)
    ensures |s| == 0 ==> EncodeOctets(s) == ""
    ensures |s| == 1 ==> EncodeOctets(s) == Format02x(s[0] as nat)
    ensures |s| >= 2 ==> EncodeOctets(s) == Format02x(s[0] as nat) + ":" + EncodeOctets(s[1..])
  {
    var parts := seq(|s|, i requires 0 <= i < |s| => Format02x(s[i] as nat));
    if |s| >= 2 {
      assert parts[1..] == seq(|s[1..]|, i requires 0 <= i < |s[1..]| => Format02x(s[1..][i] as nat));
    }
  }

  /** The empty string encodes to the empty string; n >= 1 octets encode to 3n - 1 characters. */
  lemma {:induction false} EncodeOctetsLength(s: string)
    requires IsOctetString(s)
    ensures |EncodeOctets(s)| == if |s| == 0 then 0 else 3 * |s| - 1
    decreases |s|
  {
    EncodeOctetsUnfold(s);
    if |s| >= 2 {
      EncodeOctetsLength(s[1..]);
    }
  }

  /**
    The shape of the encoding: the k-th character becomes the two lowercase hex digits
    at positions 3k and 3k+1, and a ':' follows every segment but the last.
   */
  lemma {:induction false} EncodeOctetsAt(s: string, k: nat)
    requires IsOctetString(s) && k < |s|
    ensures var t := EncodeOctets(s);
      && |t| == 3 * |s| - 1
      && t[3 * k] == Digit(s[k] as nat / 16)
      && t[3 * k + 1] == Digit(s[k] as nat % 16)
      && (k < |s| - 1 ==> t[3 * k + 2] == ':')
    decreases k
  {
    EncodeOctetsUnfold(s);
    EncodeOctetsLength(s);
    var t := EncodeOctets(s);
    var head := Format02x(s[0] as nat);
    if |s| >= 2 {
      var u := EncodeOctets(s[1..]);
      EncodeOctetsLength(s[1..]);
      assert t == head + ":" + u;
      if k > 0 {
        EncodeOctetsAt(s[1..], k - 1);
        var j := 3 * (k - 1);
        assert 3 * k == j + 3;
        assert t[j + 3] == u[j] && t[j + 4] == u[j + 1];
        if k < |s| - 1 {
          assert t[j + 5] == u[j + 2];
        }
        assert s[1..][k - 1] == s[k];
      } else {
        assert t[0] == head[0] && t[1] == head[1] && t[2] == ':';
      }
    }
  }

  /** Decoding the encoding recovers the character codes. */
  lemma {:induction false} DecodeEncode(s: string)
    requires IsOctetString(s)
    ensures DecodeOctets(EncodeOctets(s)) == Some(Codes(s))
    decreases |s|
  {
    EncodeOctetsUnfold(s);
    if |s| >= 1 {
      var c := s[0] as nat;
      assert DigitValue(Digit(c / 16)) == Some(c / 16);
      assert DigitValue(Digit(c % 16)) == Some(c % 16);
      assert DecodeByte(Digit(c / 16), Digit(c % 16)) == Some(c);
      var t := EncodeOctets(s);
      if |s| >= 2 {
        var u := EncodeOctets(s[1..]);
        EncodeOctetsLength(s[1..]);
        DecodeEncode(s[1..]);
        assert t == [Digit(c / 16), Digit(c % 16)] + ":" + u;
        assert t[0] == Digit(c / 16) && t[1] == Digit(c % 16) && t[2] == ':' && |t| > 3;
        assert t[3..] == u;
        assert Codes(s) == [c] + Codes(s[1..]);
      } else {
        assert t == [Digit(c / 16), Digit(c % 16)];
        assert Codes(s) == [c];
      }
    }
  }

  /** The string whose character codes are cs. */
  function FromCodes(cs: seq<nat>): (s: string)
    requires forall i :: 0 <= i < |cs| ==> cs[i] < 256
    ensures |s| == |cs| && IsOctetString(s) && Codes(s) == cs
  {
    seq(|cs|, i requires 0 <= i < |cs| => cs[i] as char)
  }

  /** Every string the decoder accepts is the encoding of the codes it yields. */
  lemma {:induction false} EncodeDecode(t: string)
    requires DecodeOctets(t).Some?
    ensures forall i :: 0 <= i < |DecodeOctets(t).value| ==> DecodeOctets(t).value[i] < 256
    ensures EncodeOctets(FromCodes(DecodeOctets(t).value)) == t
    decreases |t|
  {
    var cs := DecodeOctets(t).value;
    if |t| > 2 {
      EncodeDecode(t[3..]);
      var rest := DecodeOctets(t[3..]).value;
      var s := FromCodes(cs);
      EncodeOctetsUnfold(s);
      assert s[1..] == FromCodes(rest);
      assert t == t[..2] + ":" + t[3..];
      assert t[..2] == [t[0], t[1]];
    } else if |t| == 2 {
      var s := FromCodes(cs);
      EncodeOctetsUnfold(s);
      assert t == [t[0], t[1]];
    }
  }

  /** The characters 'A' and 'B' (codes 0x41 and 0x42) encode as "41:42". */
  lemma EncodeOctetsExample()
    ensures EncodeOctets("AB") == "41:42"
  {
    EncodeOctetsUnfold("AB");
    EncodeOctetsUnfold("B");
    assert "AB"[1..] == "B";
    assert Format02x('A' as nat) == "41" by { assert Digit(4) == '4' && Digit(1) == '1'; }
    assert Format02x('B' as nat) == "42" by { assert Digit(4) == '4' && Digit(2) == '2'; }
  }
}
