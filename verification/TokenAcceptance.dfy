/** Which texts are session tokens: what `verify_token` accepts, and the two number formats in it. */
module TokenAcceptance {
  import opened Text
  import opened Tokens
  import opened Wrappers

  // ----- the verdict on any token -----

  /** The token is a time that has not passed, a dot, and the code of that time in hexadecimal. */
  ghost predicate Presents(mac: Mac, key: seq<Octet>, token: string, now: int, payload: string, sig: string, exp: int) {
    && token == payload + "." + sig && '.' !in payload
    && ParseI64(payload) == Some(exp) && now <= exp
    && HexDecode(sig) == Octets(mac(key, payload))
  }

  /** Every token, under every key and at every time, is accepted exactly when it presents a time and its code. */
  lemma {:induction false} AcceptedExactly(mac: Mac, key: seq<Octet>, token: string, now: int)
    ensures VerifyToken(mac, key, token, now) == Valid <==>
      exists payload, sig, exp :: Presents(mac, key, token, now, payload, sig, exp)
  {
    if exists payload, sig, exp :: Presents(mac, key, token, now, payload, sig, exp) {
      var payload, sig, exp :| Presents(mac, key, token, now, payload, sig, exp);
      SplitAtDot(payload, sig);
    }
    if VerifyToken(mac, key, token, now) == Valid {
      var dot := IndexOf(token, '.');
      var payload, sig := token[..dot], token[dot + 1..];
      assert token == payload + "." + sig;
      assert Presents(mac, key, token, now, payload, sig, ParseI64(payload).value);
    }
  }

  // ----- hexadecimal text -----

  const LOWER := "0123456789abcdef"
  const UPPER := "0123456789ABCDEF"

  predicate IsDigit(c: char, n: nat) { n < 16 && (c == LOWER[n] || c == UPPER[n]) }

  lemma DigitExactly(c: char, n: nat)
    ensures DigitValue(c) == Some(n) <==> IsDigit(c, n)
  {
  }

  /** Two characters stand for an octet: two digits in either case, or a plus sign and one digit. */
  predicate PairStands(hi: char, lo: char, o: Octet) {
    (IsDigit(hi, o / 16) || (hi == '+' && o < 16)) && IsDigit(lo, o % 16)
  }

  lemma SplitOctet(h: nat, l: nat, o: int)
    requires l < 16 && o == 16 * h + l
    ensures h == o / 16 && l == o % 16
  {
  }

  lemma PairExactly(hi: char, lo: char, o: Octet)
    ensures PairValue(hi, lo) == Some(o) <==> PairStands(hi, lo, o)
    ensures PairStands(hi, lo, o) ==> Utf8Length(hi) == 1 && Utf8Length(lo) == 1
  {
    DigitExactly(hi, o / 16);
    DigitExactly(lo, o % 16);
    if PairValue(hi, lo) == Some(o) {
      var h: nat := if hi == '+' then 0 else DigitValue(hi).value;
      SplitOctet(h, DigitValue(lo).value, o);
    }
  }

  lemma {:induction false} DecodesExactly(s: string, b: seq<Octet>)
    ensures DecodePairs(s) == Octets(b) <==> IsHexOf(s, b)
    ensures IsHexOf(s, b) ==> ByteLength(s) == |s|
  {
    if |s| >= 2 && b != [] {
      DecodesExactly(s[2..], b[1..]);
      PairExactly(s[0], s[1], b[0]);
      IsHexOfCons(s, b);
      ByteLengthCons(s);
      assert b == [b[0]] + b[1..];
    }
  }

  ghost predicate IsHexOf(s: string, b: seq<Octet>) {
    |s| == 2 * |b| && forall i :: 0 <= i < |b| ==> PairStands(s[2 * i], s[2 * i + 1], b[i])
  }

  lemma IsHexOfCons(s: string, b: seq<Octet>)
    requires |s| >= 2 && b != []
    ensures IsHexOf(s, b) <==> PairStands(s[0], s[1], b[0]) && IsHexOf(s[2..], b[1..])
  {
    var t, c := s[2..], b[1..];
    if IsHexOf(s, b) {
      forall i | 0 <= i < |c| ensures PairStands(t[2 * i], t[2 * i + 1], c[i]) {
        assert t[2 * i] == s[2 * (i + 1)] && t[2 * i + 1] == s[2 * (i + 1) + 1] && c[i] == b[i + 1];
      }
    }
    if PairStands(s[0], s[1], b[0]) && IsHexOf(t, c) {
      forall i | 0 <= i < |b| ensures PairStands(s[2 * i], s[2 * i + 1], b[i]) {
        if i > 0 { assert t[2 * (i - 1)] == s[2 * i] && t[2 * (i - 1) + 1] == s[2 * i + 1] && c[i - 1] == b[i]; }
      }
    }
  }

  /** The text decodes to these octets exactly when it is one pair of characters for each of them. */
  lemma {:induction false} HexDecodesExactly(s: string, b: seq<Octet>)
    ensures HexDecode(s) == Octets(b) <==>
      |s| == 2 * |b| && forall i :: 0 <= i < |b| ==> PairStands(s[2 * i], s[2 * i + 1], b[i])
  {
    DecodesExactly(s, b);
  }

  // ----- decimal text -----

  function Zeros(k: nat): string {
    if k == 0 then [] else Zeros(k - 1) + "0"
  }

  lemma {:induction false} ZerosCons(k: nat)
    ensures |Zeros(k)| == k && forall i :: 0 <= i < k ==> Zeros(k)[i] == '0'
  {
    if k > 0 { ZerosCons(k - 1); }
  }

  lemma ParseSnoc(s: string, d: nat)
    requires d < 10
    ensures ParseNat(s + [HexDigit(d)]) == if ParseNat(s).Some? then Some(10 * ParseNat(s).value + d) else None
  {
    var t := s + [HexDigit(d)];
    assert t[..|t| - 1] == s;
  }

  lemma {:induction false} ZerosParse(k: nat)
    ensures ParseNat(Zeros(k)) == Some(0)
  {
    if k > 0 {
      ZerosParse(k - 1);
      ParseSnoc(Zeros(k - 1), 0);
    }
  }

  lemma {:induction false} PaddedParses(k: nat, n: nat)
    ensures ParseNat(Zeros(k) + DecimalNat(n)) == Some(n)
  {
    if n < 10 {
      ZerosParse(k);
      ParseSnoc(Zeros(k), n);
    } else {
      PaddedParses(k, n / 10);
      ParseSnoc(Zeros(k) + DecimalNat(n / 10), n % 10);
      Regroup(Zeros(k), DecimalNat(n / 10), [HexDigit(n % 10)]);
    }
  }

  /** One more digit behind a padded number. */
  lemma PaddedSnoc(k: nat, m: nat, d: nat) returns (k': nat)
    requires d < 10
    ensures Zeros(k) + DecimalNat(m) + [HexDigit(d)] == Zeros(k') + DecimalNat(10 * m + d)
  {
    k' := k;
    if m == 0 {
      k' := k + 1;
      assert DecimalNat(0) == "0" && DecimalNat(d) == [HexDigit(d)];
    } else {
      assert (10 * m + d) / 10 == m && (10 * m + d) % 10 == d;
      Regroup(Zeros(k), DecimalNat(m), [HexDigit(d)]);
    }
  }

  lemma {:induction false} ParsedIsPadded(s: string) returns (k: nat)
    requires s != [] && ParseNat(s).Some?
    ensures s == Zeros(k) + DecimalNat(ParseNat(s).value)
  {
    var init, c := s[..|s| - 1], s[|s| - 1];
    var m, d := ParseNat(init).value, c as int - '0' as int;
    assert s == init + [HexDigit(d)];
    if init == [] {
      k := 0;
    } else {
      k := ParsedIsPadded(init);
      k := PaddedSnoc(k, m, d);
    }
  }

  /** A sign, any number of zeros, and the decimal text of the magnitude. */
  ghost predicate Spells(s: string, n: int, sign: string, k: nat) {
    && s == sign + (Zeros(k) + DecimalNat(if n < 0 then -n else n))
    && (sign == "" || sign == "+" ==> n >= 0) && (sign == "-" ==> n <= 0)
    && (sign == "" || sign == "+" || sign == "-")
  }

  lemma {:induction false} DigitsOfPadded(k: nat, n: nat)
    ensures Digits(Zeros(k) + DecimalNat(n))
  {
    ZerosCons(k);
    ParseDecimalNat(n);
  }

  lemma SpelledParses(s: string, n: int, sign: string, k: nat)
    requires InI64(n) && Spells(s, n, sign, k)
    ensures ParseI64(s) == Some(n)
  {
    var m := if n < 0 then -n else n;
    var digits := Zeros(k) + DecimalNat(m);
    PaddedParses(k, m);
    DigitsOfPadded(k, m);
    if sign == "" {
      assert sign + digits == digits;
      ParseUnsigned(digits, m);
    } else if sign == "-" {
      ParseSigned(digits, m);
    } else {
      ParsePlus(digits, m);
    }
  }

  lemma ParsePlus(s: string, n: nat)
    requires Digits(s) && ParseNat(s) == Some(n) && InI64(n)
    ensures ParseI64("+" + s) == Some(n)
  {
    assert ("+" + s)[1..] == s;
  }

  lemma ParsedIsSpelled(s: string) returns (sign: string, k: nat)
    requires ParseI64(s).Some?
    ensures Spells(s, ParseI64(s).value, sign, k)
  {
    sign := if s[0] == '-' || s[0] == '+' then [s[0]] else "";
    var digits := s[|sign|..];
    k := ParsedIsPadded(digits);
    assert s == sign + digits;
  }

  /** What parses as a 64-bit time: nothing but an optional sign, leading zeros and the decimal digits of it. */
  lemma {:induction false} ParsesExactly(s: string, n: int)
    ensures ParseI64(s) == Some(n) <==> InI64(n) && exists sign, k :: Spells(s, n, sign, k)
  {
    if InI64(n) && exists sign, k :: Spells(s, n, sign, k) {
      var sign, k :| Spells(s, n, sign, k);
      SpelledParses(s, n, sign, k);
    }
    if ParseI64(s) == Some(n) { var sign, k := ParsedIsSpelled(s); }
  }
}
