/** Hexadecimal and decimal text, and the session tokens built from them. */
module Tokens {
  import opened Text
  import opened Wrappers

  type Octet = n: int | 0 <= n < 256 witness 0

  // ----- hex_encode and hex_decode -----

  function HexDigit(n: nat): (c: char)
    requires n < 16
  {
    if n < 10 then ('0' as int + n) as char else ('a' as int + (n - 10)) as char
  }

  function HexEncode(b: seq<Octet>): string {
    if b == [] then [] else [HexDigit(b[0] / 16), HexDigit(b[0] % 16)] + HexEncode(b[1..])
  }

  function DigitValue(c: char): (r: Option<nat>)
    ensures r.Some? ==> r.value < 16
  {
    if '0' <= c <= '9' then Some(c as int - '0' as int)
    else if 'a' <= c <= 'f' then Some(c as int - 'a' as int + 10)
    else if 'A' <= c <= 'F' then Some(c as int - 'A' as int + 10)
    else None
  }

  /** Rust's `u8::from_str_radix(_, 16)` on two characters; a leading plus sign is allowed. */
  function PairValue(hi: char, lo: char): (r: Option<Octet>) {
    match (if hi == '+' then Some(0) else DigitValue(hi), DigitValue(lo))
    case (Some(h), Some(l)) => Some(16 * h + l)
    case _ => None
  }

  datatype Decoding = Octets(bytes: seq<Octet>) | Malformed | Panic

  /** The program cuts the text every two bytes: a cut inside a character panics, and a two-byte
      character is not a number. */
  function DecodePairs(s: string): Decoding {
    if s == [] then Octets([])
    else if Utf8Length(s[0]) == 2 then Malformed
    else if Utf8Length(s[0]) > 2 || |s| == 1 || Utf8Length(s[1]) > 1 then Panic
    else
      match PairValue(s[0], s[1])
      case None => Malformed
      case Some(octet) =>
        match DecodePairs(s[2..])
        case Octets(rest) => Octets([octet] + rest)
        case other => other
  }

  function HexDecode(s: string): Decoding {
    if ByteLength(s) % 2 != 0 then Malformed else DecodePairs(s)
  }

  predicate HexChar(c: char) { '0' <= c <= '9' || 'a' <= c <= 'f' }

  lemma {:induction false} HexEncodeIsHex(b: seq<Octet>)
    ensures ByteLength(HexEncode(b)) == |HexEncode(b)| == 2 * |b| && ByteLength(HexEncode(b)) % 2 == 0
    ensures forall i :: 0 <= i < |HexEncode(b)| ==> HexChar(HexEncode(b)[i])
  {
    if b != [] {
      HexEncodeIsHex(b[1..]);
      var s := HexEncode(b);
      assert s[1..][1..] == HexEncode(b[1..]);
      assert HexChar(s[0]) && HexChar(s[1]);
    }
  }

  lemma DigitRoundTrip(n: nat)
    requires n < 16
    ensures DigitValue(HexDigit(n)) == Some(n) && HexChar(HexDigit(n)) && Utf8Length(HexDigit(n)) == 1
  {
  }

  lemma PairRoundTrip(o: Octet)
    ensures PairValue(HexDigit(o / 16), HexDigit(o % 16)) == Some(o)
  {
    DigitRoundTrip(o / 16);
    DigitRoundTrip(o % 16);
  }

  lemma {:induction false} DecodeEncoded(b: seq<Octet>)
    ensures DecodePairs(HexEncode(b)) == Octets(b)
  {
    if b != [] {
      var s := HexEncode(b);
      assert s[0] == HexDigit(b[0] / 16) && s[1] == HexDigit(b[0] % 16) && s[2..] == HexEncode(b[1..]);
      DigitRoundTrip(b[0] / 16);
      DigitRoundTrip(b[0] % 16);
      PairRoundTrip(b[0]);
      DecodeEncoded(b[1..]);
      assert DecodePairs(s) == Octets([b[0]] + b[1..]);
      assert b == [b[0]] + b[1..];
    }
  }

  /** Decoding undoes encoding. */
  lemma {:induction false} HexRoundTrip(b: seq<Octet>)
    ensures HexDecode(HexEncode(b)) == Octets(b)
  {
    HexEncodeIsHex(b);
    DecodeEncoded(b);
  }

  // ----- the expiry time as text -----

  function DecimalNat(n: nat): string {
    if n < 10 then [HexDigit(n)] else DecimalNat(n / 10) + [HexDigit(n % 10)]
  }

  function Decimal(n: int): string {
    if n < 0 then "-" + DecimalNat(-n) else DecimalNat(n)
  }

  function ParseNat(s: string): Option<nat> {
    if s == [] then Some(0)
    else
      var last := s[|s| - 1];
      match ParseNat(s[..|s| - 1])
      case Some(n) => if '0' <= last <= '9' then Some(10 * n + (last as int - '0' as int)) else None
      case None => None
  }

  predicate InI64(n: int) { -0x8000_0000_0000_0000 <= n < 0x8000_0000_0000_0000 }

  /** Rust's `str::parse::<i64>`. */
  function ParseI64(s: string): Option<int> {
    var signed := s != [] && (s[0] == '-' || s[0] == '+');
    var digits := if signed then s[1..] else s;
    if digits == [] then None
    else
      match ParseNat(digits)
      case None => None
      case Some(n) =>
        var magnitude: int := n;
        var value := if signed && s[0] == '-' then -magnitude else magnitude;
        if InI64(value) then Some(value) else None
  }

  lemma {:induction false} ParseDecimalNat(n: nat)
    ensures ParseNat(DecimalNat(n)) == Some(n) && DecimalNat(n) != []
    ensures forall i :: 0 <= i < |DecimalNat(n)| ==> '0' <= DecimalNat(n)[i] <= '9'
  {
    var s := DecimalNat(n);
    if n >= 10 {
      ParseDecimalNat(n / 10);
      assert s[..|s| - 1] == DecimalNat(n / 10);
    } else {
      assert s[..0] == [];
    }
  }

  lemma ParseDecimal(n: int)
    requires InI64(n)
    ensures ParseI64(Decimal(n)) == Some(n) && '.' !in Decimal(n)
  {
    if n < 0 {
      ParseDecimalNat(-n);
      ParseSigned(DecimalNat(-n), -n);
    } else {
      ParseDecimalNat(n);
      ParseUnsigned(DecimalNat(n), n);
    }
  }

  predicate Digits(s: string) { s != [] && forall i :: 0 <= i < |s| ==> '0' <= s[i] <= '9' }

  lemma ParseUnsigned(s: string, n: nat)
    requires Digits(s) && ParseNat(s) == Some(n) && InI64(n)
    ensures ParseI64(s) == Some(n) && '.' !in s
  {
  }

  lemma ParseSigned(s: string, n: int)
    requires n >= 0 && Digits(s) && ParseNat(s) == Some(n) && InI64(-n)
    ensures ParseI64("-" + s) == Some(-n) && '.' !in "-" + s
  {
    assert ("-" + s)[1..] == s;
  }

  // ----- tokens -----

  const SESSION_TTL_SECS := 24 * 3600

  /** Any deterministic message authentication code. */
  type Mac = (seq<Octet>, string) -> seq<Octet>

  function IssueToken(mac: Mac, key: seq<Octet>, now: int): string {
    var payload := Decimal(now + SESSION_TTL_SECS);
    payload + "." + HexEncode(mac(key, payload))
  }

  datatype Verdict = Valid | Rejected | Crashed

  function VerifyToken(mac: Mac, key: seq<Octet>, token: string, now: int): Verdict {
    var dot := IndexOf(token, '.');
    if dot == |token| then Rejected
    else
      var payload, sig := token[..dot], token[dot + 1..];
      VerifyParts(mac, key, payload, sig, now)
  }

  /** What `verify_token` makes of the two sides of the dot. */
  function VerifyParts(mac: Mac, key: seq<Octet>, payload: string, sig: string, now: int): Verdict {
    match ParseI64(payload)
    case None => Rejected
    case Some(exp) =>
      if exp < now then Rejected
      else
        match HexDecode(sig)
        case Malformed => Rejected
        case Panic => Crashed
        case Octets(bytes) => if bytes == mac(key, payload) then Valid else Rejected
  }

  lemma SplitAtDot(payload: string, sig: string)
    requires '.' !in payload
    ensures var token := payload + "." + sig;
      IndexOf(token, '.') == |payload| < |token| && token[..|payload|] == payload && token[|payload| + 1..] == sig
  {
    var token := payload + "." + sig;
    assert forall i :: 0 <= i < |payload| ==> token[i] == payload[i] && payload[i] in payload;
    IndexOfUnique(token, '.', |payload|);
  }

  /** Whatever the code, a token is accepted exactly until it expires, and under another key only
      if both keys give its payload the same code. It never crashes the program. */
  lemma {:induction false} TokenVerdict(mac: Mac, key: seq<Octet>, other: seq<Octet>, issued: int, now: int)
    requires InI64(issued + SESSION_TTL_SECS)
    ensures var payload := Decimal(issued + SESSION_TTL_SECS);
      VerifyToken(mac, other, IssueToken(mac, key, issued), now)
        == if now <= issued + 24 * 3600 && mac(key, payload) == mac(other, payload) then Valid else Rejected
  {
    var payload := Decimal(issued + SESSION_TTL_SECS);
    ParseDecimal(issued + SESSION_TTL_SECS);
    SplitAtDot(payload, HexEncode(mac(key, payload)));
    IssuedParts(mac, other, payload, mac(key, payload), issued + SESSION_TTL_SECS, now);
  }

  lemma IssuedParts(mac: Mac, other: seq<Octet>, payload: string, code: seq<Octet>, exp: int, now: int)
    requires ParseI64(payload) == Some(exp)
    ensures VerifyParts(mac, other, payload, HexEncode(code), now)
         == if now <= exp && code == mac(other, payload) then Valid else Rejected
  {
    HexRoundTrip(code);
  }

  // ----- where verification crashes -----

  /** A cut after the first two bytes, or after the first one, falls inside a character. */
  predicate CutsCharacter(s: string) {
    s != [] && (Utf8Length(s[0]) > 2 || (Utf8Length(s[0]) == 1 && |s| > 1 && Utf8Length(s[1]) > 1))
  }

  /** Up to position `n` the text is pairs of hexadecimal digits, and the next cut falls inside a character. */
  predicate CutAt(s: string, n: nat) {
    n <= |s| && DecodePairs(s[..n]).Octets? && CutsCharacter(s[n..])
  }

  ghost predicate HasCut(s: string) { exists n: nat :: CutAt(s, n) }

  lemma {:induction false} ByteLengthCons(s: string)
    ensures |s| == 1 ==> ByteLength(s) == Utf8Length(s[0])
    ensures |s| > 1 ==> ByteLength(s) == Utf8Length(s[0]) + Utf8Length(s[1]) + ByteLength(s[2..])
  {
    if |s| > 1 { assert s[1..][1..] == s[2..]; }
  }

  lemma {:induction false} PanicsWhere(s: string) returns (n: nat)
    requires ByteLength(s) % 2 == 0 && DecodePairs(s).Panic?
    ensures CutAt(s, n)
  {
    ByteLengthCons(s);
    if CutsCharacter(s) {
      n := 0;
      assert s[..0] == [] && s[0..] == s;
    } else {
      assert |s| > 1;
      n := PanicsWhere(s[2..]);
      PairsCons(s, n);
      n := n + 2;
    }
  }

  /** Two more digits in front do not change where the cut is. */
  lemma PairsCons(s: string, n: nat)
    requires |s| > 1 && n <= |s| - 2 && Utf8Length(s[0]) == Utf8Length(s[1]) == 1 && PairValue(s[0], s[1]).Some?
    ensures CutAt(s, n + 2) <==> CutAt(s[2..], n)
  {
    assert s[..n + 2][2..] == s[2..][..n];
    assert s[2..][n..] == s[n + 2..];
  }

  lemma {:induction false} CutPanics(s: string, n: nat)
    requires CutAt(s, n)
    ensures DecodePairs(s).Panic?
  {
    if n == 0 {
      assert s[0..] == s;
    } else {
      var head := s[..n];
      assert head[0] == s[0];
      if n > 1 {
        assert head[1] == s[1];
        PairsCons(s, n - 2);
        CutPanics(s[2..], n - 2);
      }
    }
  }

  lemma PanicExactly(sig: string)
    ensures HexDecode(sig).Panic? <==> ByteLength(sig) % 2 == 0 && HasCut(sig)
  {
    if HasCut(sig) {
      var n: nat :| CutAt(sig, n);
      CutPanics(sig, n);
    }
    if ByteLength(sig) % 2 == 0 && DecodePairs(sig).Panic? { var n := PanicsWhere(sig); }
  }

  /** Verification crashes exactly on a token that has not expired and whose signature is of even length and has
      a cut inside a character after nothing but pairs of digits. */
  lemma {:induction false} CrashesExactly(mac: Mac, key: seq<Octet>, token: string, now: int)
    ensures VerifyToken(mac, key, token, now) == Crashed <==>
      var dot := IndexOf(token, '.');
      && dot < |token| && ParseI64(token[..dot]).Some? && ParseI64(token[..dot]).value >= now
      && ByteLength(token[dot + 1..]) % 2 == 0 && HasCut(token[dot + 1..])
  {
    var dot := IndexOf(token, '.');
    if dot < |token| { PanicExactly(token[dot + 1..]); }
  }

  lemma AsciiHasNoCut(s: string)
    requires forall i :: 0 <= i < |s| ==> s[i] as int < 0x80
    ensures !HasCut(s)
  {
    forall n: nat ensures !CutAt(s, n) {
      if n < |s| {
        var rest := s[n..];
        assert forall i :: 0 <= i < |rest| ==> rest[i] == s[n + i];
      }
    }
  }

  /** In particular never on a token of ASCII characters. */
  lemma {:induction false} AsciiNeverCrashes(mac: Mac, key: seq<Octet>, token: string, now: int)
    requires forall i :: 0 <= i < |token| ==> token[i] as int < 0x80
    ensures VerifyToken(mac, key, token, now) != Crashed
  {
    CrashesExactly(mac, key, token, now);
    var dot := IndexOf(token, '.');
    if dot < |token| {
      var sig := token[dot + 1..];
      assert forall i :: 0 <= i < |sig| ==> sig[i] == token[dot + 1 + i];
      AsciiHasNoCut(sig);
    }
  }
}
