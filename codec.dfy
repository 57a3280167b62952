/**
 * The code-point sequence codec of the alias tool: a token such as
 * `1f468_200d_1f469` names the sequence (0x1f468, 0x200d, 0x1f469).
 *
 * `StrToSeq` splits a token on `_` and reads each piece as a hexadecimal
 * number; `SeqToStr` writes each code point as lowercase hexadecimal padded
 * with zeros to at least four digits (Python's `'%04x'`) and joins the pieces
 * with `_`.
 */
module Codec {
  import opened Wrappers

  /** A code-point sequence, Python's tuple of non-negative ints. */
  type CodePoints = seq<nat>

  // ---------------------------------------------------------------------------
  // Splitting and joining, as Python's str.split(sep) and sep.join(parts)

  /** Python's `s.join(parts)` for a one-character separator. */
  function Join(parts: seq<string>, sep: char): string
    decreases |parts|
  {
    if |parts| == 0 then ""
    else if |parts| == 1 then parts[0]
    else parts[0] + [sep] + Join(parts[1..], sep)
  }

  /** Python's `s.split(sep)`: always at least one piece. */
  function Split(s: string, sep: char): (parts: seq<string>)
    ensures |parts| >= 1
    decreases |s|
  {
    if |s| == 0 then [""]
    else
      var rest := Split(s[1..], sep);
      if s[0] == sep then [""] + rest
      else [[s[0]] + rest[0]] + rest[1..]
  }

  /** No piece holds the separator, and joining the pieces gives back `s`. */
  lemma {:induction false} JoinSplit(s: string, sep: char)
    ensures forall i :: 0 <= i < |Split(s, sep)| ==> sep !in Split(s, sep)[i]
    ensures Join(Split(s, sep), sep) == s
    decreases |s|
  {
    if |s| > 0 {
      JoinSplit(s[1..], sep);
      var rest := Split(s[1..], sep);
      assert s == [s[0]] + s[1..];
      if s[0] != sep {
        var parts := [[s[0]] + rest[0]] + rest[1..];
        assert parts[1..] == rest[1..];
        assert forall i :: 1 <= i < |parts| ==> parts[i] == rest[i];
      }
    }
  }

  lemma {:induction false} SplitNoSeparator(p: string, sep: char)
    requires sep !in p
    ensures Split(p, sep) == [p]
    decreases |p|
  {
    if |p| > 0 {
      assert sep !in p[1..];
      SplitNoSeparator(p[1..], sep);
      assert p == [p[0]] + p[1..];
    }
  }

  lemma {:induction false} SplitAfterPiece(p: string, sep: char, t: string)
    requires sep !in p
    ensures Split(p + [sep] + t, sep) == [p] + Split(t, sep)
    decreases |p|
  {
    var s := p + [sep] + t;
    if |p| == 0 {
      assert s[0] == sep && s[1..] == t;
    } else {
      assert s[0] == p[0] && s[1..] == p[1..] + [sep] + t;
      assert sep !in p[1..];
      SplitAfterPiece(p[1..], sep, t);
      assert p == [p[0]] + p[1..];
    }
  }

  /** Splitting undoes joining when no piece holds the separator. */
  lemma {:induction false} SplitJoin(parts: seq<string>, sep: char)
    requires |parts| >= 1
    requires forall i :: 0 <= i < |parts| ==> sep !in parts[i]
    ensures Split(Join(parts, sep), sep) == parts
    decreases |parts|
  {
    if |parts| == 1 {
      SplitNoSeparator(parts[0], sep);
    } else {
      SplitJoin(parts[1..], sep);
      SplitAfterPiece(parts[0], sep, Join(parts[1..], sep));
      assert parts == [parts[0]] + parts[1..];
    }
  }

  // ---------------------------------------------------------------------------
  // Hexadecimal digits and numerals

  predicate IsHexDigit(c: char) {
    '0' <= c <= '9' || 'a' <= c <= 'f' || 'A' <= c <= 'F'
  }

  predicate IsLowerHexDigit(c: char) {
    '0' <= c <= '9' || 'a' <= c <= 'f'
  }

  predicate AllHex(s: string) {
    forall i :: 0 <= i < |s| ==> IsHexDigit(s[i])
  }

  predicate AllLowerHex(s: string) {
    forall i :: 0 <= i < |s| ==> IsLowerHexDigit(s[i])
  }

  function DigitValue(c: char): (d: nat)
    requires IsHexDigit(c)
    ensures d < 16
    ensures d == 0 <==> c == '0'
  {
    if c <= '9' then c as nat - '0' as nat
    else if c <= 'F' then c as nat - 'A' as nat + 10
    else c as nat - 'a' as nat + 10
  }

  /** The lowercase digit of value `d`. */
  function HexChar(d: nat): (c: char)
    requires d < 16
    ensures IsLowerHexDigit(c) && DigitValue(c) == d
  {
    if d < 10 then ('0' as int + d) as char else ('a' as int + d - 10) as char
  }

  lemma HexCharOfDigit(c: char)
    requires IsLowerHexDigit(c)
    ensures HexChar(DigitValue(c)) == c
  {
  }

  /** The value of a string of hex digits, most significant digit first. */
  function HexValue(s: string): nat
    requires AllHex(s)
    decreases |s|
  {
    if |s| == 0 then 0 else HexValue(s[..|s| - 1]) * 16 + DigitValue(s[|s| - 1])
  }

  lemma HexValueSnoc(s: string, c: char)
    requires AllHex(s) && IsHexDigit(c)
    ensures AllHex(s + [c]) && HexValue(s + [c]) == HexValue(s) * 16 + DigitValue(c)
  {
    assert (s + [c])[..|s|] == s;
  }

  /** A leading zero does not change the value. */
  lemma {:induction false} LeadingZero(s: string)
    requires AllHex(s)
    ensures AllHex("0" + s) && HexValue("0" + s) == HexValue(s)
    decreases |s|
  {
    var t := "0" + s;
    if |s| > 0 {
      var init := s[..|s| - 1];
      assert t[..|t| - 1] == "0" + init;
      LeadingZero(init);
    }
  }

  /** A numeral that does not start with `0` has a positive value. */
  lemma {:induction false} HexValuePositive(s: string)
    requires |s| > 0 && AllHex(s) && s[0] != '0'
    ensures HexValue(s) > 0
    decreases |s|
  {
    if |s| > 1 {
      HexValuePositive(s[..|s| - 1]);
    }
  }

  /** `k` zero digits. */
  function Zeros(k: nat): (z: string)
    ensures |z| == k && AllLowerHex(z)
    ensures forall i :: 0 <= i < k ==> z[i] == '0'
    decreases k
  {
    if k == 0 then "" else "0" + Zeros(k - 1)
  }

  lemma {:induction false} ZerosPrefix(k: nat, s: string)
    requires AllHex(s)
    ensures AllHex(Zeros(k) + s) && HexValue(Zeros(k) + s) == HexValue(s)
    decreases k
  {
    if k > 0 {
      var t := Zeros(k - 1) + s;
      ZerosPrefix(k - 1, s);
      LeadingZero(t);
      assert Zeros(k) == "0" + Zeros(k - 1);
      assert Zeros(k) + s == "0" + t;
      assert HexValue(Zeros(k) + s) == HexValue("0" + t);
    } else {
      assert Zeros(k) + s == s;
    }
  }

  /**
   * The shortest lowercase hexadecimal numeral of `n`: at least one digit,
   * no leading zero, and its value is `n`.
   */
  function Digits(n: nat): (s: string)
    ensures |s| >= 1 && AllLowerHex(s) && AllHex(s) && HexValue(s) == n
    ensures |s| > 1 ==> s[0] != '0'
    decreases n
  {
    if n < 16 then [HexChar(n)]
    else
      var d := Digits(n / 16);
      HexValueSnoc(d, HexChar(n % 16));
      d + [HexChar(n % 16)]
  }

  function Pow16(k: nat): (p: nat)
    ensures p >= 1
  {
    if k == 0 then 1 else 16 * Pow16(k - 1)
  }

  /** A number below 16^k has at most k digits. */
  lemma {:induction false} DigitsLength(n: nat, k: nat)
    requires k >= 1 && n < Pow16(k)
    ensures |Digits(n)| <= k
    decreases k
  {
    if n >= 16 {
      assert k >= 2;
      var p := Pow16(k - 1);
      assert n < 16 * p;
      assert n / 16 < p;
      DigitsLength(n / 16, k - 1);
    }
  }

  /** Python's `'%04x' % n`. */
  function Hex4(n: nat): (s: string)
    ensures CanonicalPiece(s)
    ensures HexValue(s) == n
    ensures n < 0x10000 ==> |s| == 4
  {
    var d := Digits(n);
    assert n < 0x10000 ==> |d| <= 4 by {
      if n < 0x10000 {
        assert Pow16(4) == 0x10000;
        DigitsLength(n, 4);
      }
    }
    if |d| >= 4 then d
    else
      ZerosPrefix(4 - |d|, d);
      Zeros(4 - |d|) + d
  }

  /**
   * A piece as `'%04x'` writes it: four or more lowercase hex digits, with no
   * leading zero beyond the four-digit padding.
   */
  predicate CanonicalPiece(p: string) {
    |p| >= 4 && AllLowerHex(p) && AllHex(p) && (|p| > 4 ==> p[0] != '0')
  }

  /** A numeral without leading zeros is the shortest numeral of its value. */
  lemma {:induction false} DigitsOfValue(t: string)
    requires |t| >= 1 && AllLowerHex(t) && AllHex(t)
    requires |t| > 1 ==> t[0] != '0'
    ensures Digits(HexValue(t)) == t
    decreases |t|
  {
    var c := t[|t| - 1];
    if |t| == 1 {
      HexCharOfDigit(c);
      assert t == [c];
    } else {
      var init := t[..|t| - 1];
      assert init[0] == t[0];
      DigitsOfValue(init);
      HexValuePositive(init);
      var n := HexValue(t);
      assert n == HexValue(init) * 16 + DigitValue(c);
      assert n / 16 == HexValue(init) && n % 16 == DigitValue(c);
      HexCharOfDigit(c);
      assert t == init + [c];
    }
  }

  /** Splits a numeral into its leading zeros and a numeral without leading zeros. */
  lemma {:induction false} StripLeadingZeros(p: string) returns (z: nat, t: string)
    requires |p| >= 1 && AllLowerHex(p) && AllHex(p)
    ensures p == Zeros(z) + t
    ensures |t| >= 1 && AllLowerHex(t) && AllHex(t) && (|t| > 1 ==> t[0] != '0')
    decreases |p|
  {
    if |p| > 1 && p[0] == '0' {
      var z', t' := StripLeadingZeros(p[1..]);
      z, t := z' + 1, t';
      assert p == "0" + p[1..];
    } else {
      z, t := 0, p;
    }
  }

  /** `'%04x'` writes every canonical piece back exactly: the representation is unique. */
  lemma CanonicalPieceUnique(p: string)
    requires CanonicalPiece(p)
    ensures Hex4(HexValue(p)) == p
  {
    var z, t := StripLeadingZeros(p);
    ZerosPrefix(z, t);
    DigitsOfValue(t);
    var n := HexValue(p);
    assert Digits(n) == t;
    assert |t| == |p| - z;
    if z > 0 {
      assert p[0] == '0';
      assert |p| == 4;
      assert Hex4(n) == Zeros(4 - |t|) + t;
    } else {
      assert p == t;
      assert Hex4(n) == t;
    }
  }

  // ---------------------------------------------------------------------------
  // The codec

  /** Reads each piece as a hex number (`int(x, 16)` on digits only); fails on any bad piece. */
  function ParsePieces(parts: seq<string>): Option<CodePoints>
    decreases |parts|
  {
    if |parts| == 0 then Some([])
    else if |parts[0]| > 0 && AllHex(parts[0]) then
      match ParsePieces(parts[1..])
      case None => None
      case Some(rest) => Some([HexValue(parts[0])] + rest)
    else None
  }

  /**
   * The pieces are read exactly when every one is a non-empty string of hex
   * digits, and then the result holds each piece's value, in order.
   */
  lemma {:induction false} ParsePiecesValues(parts: seq<string>)
    ensures ParsePieces(parts).Some? <==> forall i :: 0 <= i < |parts| ==> |parts[i]| > 0 && AllHex(parts[i])
    ensures ParsePieces(parts).Some? ==> |ParsePieces(parts).value| == |parts|
    ensures ParsePieces(parts).Some? ==>
              forall i :: 0 <= i < |parts| ==> ParsePieces(parts).value[i] == HexValue(parts[i])
    decreases |parts|
  {
    if |parts| > 0 {
      ParsePiecesValues(parts[1..]);
      assert forall i :: 1 <= i < |parts| ==> parts[i] == parts[1..][i - 1];
    }
  }

  /** `str_to_seq`: `None` stands for the ValueError that `int(x, 16)` raises. */
  function StrToSeq(s: string): (r: Option<CodePoints>)
    ensures r.Some? ==> |r.value| >= 1
  {
    ParsePiecesValues(Split(s, '_'));
    ParsePieces(Split(s, '_'))
  }

  /** The `'%04x'` pieces of a code-point sequence. */
  function HexPieces(cps: CodePoints): (ps: seq<string>)
    ensures |ps| == |cps|
    ensures forall i :: 0 <= i < |cps| ==> ps[i] == Hex4(cps[i])
  {
    seq(|cps|, i requires 0 <= i < |cps| => Hex4(cps[i]))
  }

  /** `seq_to_str` */
  function SeqToStr(cps: CodePoints): string {
    Join(HexPieces(cps), '_')
  }

  /**
   * The format `seq_to_str` writes: one `_`-separated piece per code point,
   * each piece four or more lowercase hex digits with the code point's value,
   * exactly four below 0x10000.
   */
  lemma SeqToStrFormat(cps: CodePoints)
    requires |cps| >= 1
    ensures |Split(SeqToStr(cps), '_')| == |cps|
    ensures forall i :: 0 <= i < |cps| ==>
              var p := Split(SeqToStr(cps), '_')[i];
              CanonicalPiece(p) && HexValue(p) == cps[i] && (cps[i] < 0x10000 ==> |p| == 4)
  {
    var ps := HexPieces(cps);
    forall i | 0 <= i < |ps| ensures '_' !in ps[i] {
      assert AllLowerHex(ps[i]);
      forall k | 0 <= k < |ps[i]| ensures ps[i][k] != '_' {
        assert IsLowerHexDigit(ps[i][k]);
      }
    }
    SplitJoin(ps, '_');
  }

  /** `str_to_seq(seq_to_str(s)) == s` for every non-empty sequence. */
  lemma RoundTrip(cps: CodePoints)
    requires |cps| >= 1
    ensures StrToSeq(SeqToStr(cps)) == Some(cps)
  {
    SeqToStrFormat(cps);
    ParsePiecesValues(Split(SeqToStr(cps), '_'));
    var r := StrToSeq(SeqToStr(cps));
    assert r.Some?;
    assert r.value == cps;
  }

  /** The empty sequence renders as "", on which `str_to_seq` raises. */
  lemma EmptyDoesNotRoundTrip()
    ensures SeqToStr([]) == ""
    ensures StrToSeq(SeqToStr([])) == None
  {
    assert Split("", '_') == [""];
  }

  /** Only the empty sequence renders as the empty string. */
  lemma SeqToStrEmpty(cps: CodePoints)
    ensures SeqToStr(cps) == "" <==> cps == []
  {
    if |cps| >= 1 {
      var ps := HexPieces(cps);
      assert |ps[0]| >= 4;
      if |ps| > 1 {
        assert Join(ps, '_') == ps[0] + ['_'] + Join(ps[1..], '_');
      }
    }
  }

  /** Distinct sequences get distinct names. */
  lemma SeqToStrInjective(a: CodePoints, b: CodePoints)
    requires SeqToStr(a) == SeqToStr(b)
    ensures a == b
  {
    if |a| >= 1 && |b| >= 1 {
      RoundTrip(a);
      RoundTrip(b);
    } else {
      SeqToStrEmpty(a);
      SeqToStrEmpty(b);
    }
  }

  /** A well-formed token is split into canonical pieces. */
  predicate CanonicalToken(s: string) {
    forall i :: 0 <= i < |Split(s, '_')| ==> CanonicalPiece(Split(s, '_')[i])
  }

  /** Parsing then rendering gives back a token already written in canonical form. */
  lemma CanonicalTokenRoundTrip(s: string)
    requires CanonicalToken(s)
    ensures StrToSeq(s).Some?
    ensures SeqToStr(StrToSeq(s).value) == s
  {
    var parts := Split(s, '_');
    JoinSplit(s, '_');
    ParsePiecesValues(parts);
    var cps := StrToSeq(s).value;
    forall i | 0 <= i < |parts| ensures HexPieces(cps)[i] == parts[i] {
      CanonicalPieceUnique(parts[i]);
    }
    assert HexPieces(cps) == parts;
  }

  /** A token `str_to_seq` reads: every `_`-separated piece is a non-empty hex numeral. */
  predicate HexToken(s: string) {
    forall i :: 0 <= i < |Split(s, '_')| ==> |Split(s, '_')[i]| > 0 && AllHex(Split(s, '_')[i])
  }

  /**
   * The normal form of a token: each piece rewritten by `'%04x'` of its
   * value (lowercase, leading zeros dropped, padded to four digits).
   */
  function Normalized(s: string): string
    requires HexToken(s)
  {
    var parts := Split(s, '_');
    Join(seq(|parts|, i requires 0 <= i < |parts| => Hex4(HexValue(parts[i]))), '_')
  }

  /** `str_to_seq` succeeds exactly on hex tokens. */
  lemma StrToSeqAccepts(s: string)
    ensures StrToSeq(s).Some? <==> HexToken(s)
  {
    ParsePiecesValues(Split(s, '_'));
  }

  /**
   * Parsing then rendering any hex token gives its normal form, so
   * `1F600`, `01f600` and `1f600` all come back as `1f600`.
   */
  lemma NormalizeRoundTrip(s: string)
    requires HexToken(s)
    ensures StrToSeq(s).Some?
    ensures SeqToStr(StrToSeq(s).value) == Normalized(s)
  {
    var parts := Split(s, '_');
    ParsePiecesValues(parts);
    var cps := StrToSeq(s).value;
    assert HexPieces(cps) == seq(|parts|, i requires 0 <= i < |parts| => Hex4(HexValue(parts[i])));
  }
}
