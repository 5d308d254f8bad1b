/** Concrete inputs on which the program does not do what one would expect of it. */
module Exhibits {
  import opened Escaping
  import opened KeyOrder
  import opened ManagedKeys
  import opened Pem
  import opened PemKey
  import opened PemRepair
  import opened Persistence
  import opened PythonReader
  import opened ReadersAgree
  import opened Refusals
  import opened RoundTrip
  import opened SecretsFile
  import opened Text
  import opened Wrappers
  import opened Writers

  // ----- values without dashes -----

  lemma NoDashNoMarker(v: string, pat: string)
    requires NoDash(v) && pat != [] && pat[0] == '-'
    ensures !Contains(v, pat)
  {
    ContainsWhere(v, pat);
    forall i ensures !At(v, i, pat) {
      if 0 <= i < |v| { assert v[i..][0] == v[i] != pat[0]; }
    }
  }

  /** A trimmed value without dashes is kept as it is. */
  lemma PlainIsKept(key: string, v: string)
    requires key != PEM_KEY && v != [] && Trimmed(Rust, v) && NoDash(v) && NUL !in v
    ensures Judge(key, v) == Keep(v)
  {
    TrimIsTrimmed(Rust, v);
    NoDashNoMarker(v, BEGIN);
  }

  // ----- a PUT that is refused halfway -----

  const GOOD_KEY := "KALSHI_API_KEY_ID"
  const CUT_OFF := BEGIN + " KEY"

  lemma CutOffHasNoEnd()
    ensures !Contains(CUT_OFF, END)
  {
    ContainsWhere(CUT_OFF, END);
    forall i ensures !At(CUT_OFF, i, END) {
      if At(CUT_OFF, i, END) { AtDashes(CUT_OFF, i, END); }
    }
  }

  lemma CutOffIsTruncated(key: string, v: string)
    requires key == PEM_KEY && v == CUT_OFF
    ensures Judge(key, v) == Truncated
  {
    TrimIsTrimmed(Rust, v);
    CutOffHasNoEnd();
    ContainsWhere(v, BEGIN);
    assert At(v, 0, BEGIN);
    NotPemIsUnchanged(v);
  }

  lemma NotPemIsUnchanged(v: string)
    requires Trim(Rust, v) == v && !Contains(v, END)
    ensures Normalize(v) == Repaired(v)
  {
    ContainsWhere(v, END);
  }

  /** A request whose first entry is good and whose second one is cut off puts the first one into the environment,
      writes nothing and is refused. */
  lemma GoodThenCut(request: Request, good: string, v: string, cut: string)
    requires request.Keys == {good, cut} && good != cut && Less(good, cut)
    requires request[good] == Keep(v) && request[cut] == Truncated
    ensures PutRequest(map[], map[], request, true) == Attempt(map[], map[good := v], false, BadRequest)
  {
    var d, e := Draft(map[], map[], 0, Done), PutAll(Draft(map[], map[], 0, Done), SortedKeys(request.Keys), request);
    var stop := RequestOutcome(d, request);
    assert Bad(request[cut]) && stop == Some(cut);
    if Less(cut, cut) { LessAsymmetric(cut, cut); }
    OnlyGood(d, e, request, good, v, cut);
  }

  lemma OnlyGood(d: Draft, e: Draft, request: Request, good: string, v: string, cut: string)
    requires request.Keys == {good, cut} && request[good] == Keep(v) && Less(good, cut) && !Less(cut, cut)
    requires d.env == map[] && Became(d, e, request, Some(cut))
    ensures e.env == map[good := v]
  {
    assert Applied(d, e, good, request[good]);
    forall k | k != good ensures k !in e.env { assert Untouched(d, e, k); }
  }

  lemma ManagedAttempt(credentials: map<string, string>)
    requires AllManaged(credentials)
    ensures PutAttempt(map[], map[], credentials, true) == PutRequest(map[], map[], Judged(credentials), true)
  {
  }

  lemma JudgedPair(credentials: map<string, string>, good: string, v: string, cut: string, w: string)
    requires credentials.Keys == {good, cut} && credentials[good] == v && credentials[cut] == w
    requires Judge(good, v) == Keep(v) && Judge(cut, w) == Truncated
    ensures var request := Judged(credentials);
      request.Keys == {good, cut} && request[good] == Keep(v) && request[cut] == Truncated
  {
  }

  lemma PairIsManaged(credentials: map<string, string>, good: string, cut: string)
    requires credentials.Keys == {good, cut} && IsManaged(good) && IsManaged(cut)
    ensures AllManaged(credentials)
  {
  }

  lemma RealEntries(good: string, v: string, cut: string, w: string)
    requires good == GOOD_KEY && cut == PEM_KEY && v == "id" && w == CUT_OFF
    ensures Judge(good, v) == Keep(v) && Judge(cut, w) == Truncated
  {
    assert |good| != |cut|;
    PlainIsKept(good, v);
    CutOffIsTruncated(cut, w);
  }

  /** So it is with a good API key followed by a private key that has a beginning and no end. */
  lemma RefusedPutAtWork(credentials: map<string, string>, good: string, v: string, cut: string, w: string)
    requires good == GOOD_KEY && cut == PEM_KEY && v == "id" && w == CUT_OFF
    requires credentials.Keys == {good, cut} && credentials[good] == v && credentials[cut] == w
    ensures PutAttempt(map[], map[], credentials, true) == Attempt(map[], map[good := v], false, BadRequest)
  {
    assert AllManaged(credentials) && good != cut && Less(good, cut) by {
      TheTwoKeys(good, cut);
      PairIsManaged(credentials, good, cut);
    }
    RealEntries(good, v, cut, w);
    JudgedPair(credentials, good, v, cut, w);
    GoodThenCut(Judged(credentials), good, v, cut);
    ManagedAttempt(credentials);
  }

  lemma TheTwoKeys(good: string, cut: string)
    requires good == GOOD_KEY && cut == PEM_KEY
    ensures good != cut && Less(good, cut) && IsManaged(good) && IsManaged(cut)
  {
    assert |good| != |cut|;
    assert VENUE_KEYS[4] == good && VENUE_KEYS[5] == cut;
    assert MANAGED_KEYS[4] == good && MANAGED_KEYS[5] == cut;
    var p, a, b := good[..7], good[7..], cut[7..];
    assert good == p + a && cut == p + b;
    assert a[0] == 'A' && b[0] == 'P';
    SharedPrefix(p, a, b);
  }

  lemma {:induction false} SharedPrefix(p: string, a: string, b: string)
    ensures Less(p + a, p + b) <==> Less(a, b)
  {
    if p == [] {
      assert p + a == a && p + b == b;
    } else {
      assert (p + a)[1..] == p[1..] + a && (p + b)[1..] == p[1..] + b;
      SharedPrefix(p[1..], a, b);
    }
  }

  // ----- a repair that is not idempotent -----

  lemma {:induction false} CutIsNoText(p: string, c: char)
    requires Ascii(p) && Utf8Length(c) == 2
    ensures FromUtf8(Bytes(p) + [Byte(c, 0)]).None?
  {
    var b := Bytes(p) + [Byte(c, 0)];
    if p == [] {
      assert b == [Byte(c, 0)];
    } else {
      assert p[0] in p && forall x :: x in p[1..] ==> x in p;
      assert CharBytes(p[0]) == [Byte(p[0], 0)];
      assert b[1..] == Bytes(p[1..]) + [Byte(c, 0)];
      CutIsNoText(p[1..], c);
    }
  }

  /** 127 ASCII characters and one of two bytes: the second 64-byte chunk ends inside that character. */
  lemma SecondChunkIsCut(a: string, c: char)
    requires |a| == 127 && Ascii(a) && Utf8Length(c) == 2
    ensures !Lossless(Bytes(a + [c])) && Decoded(Bytes(a + [c])) != []
  {
    var b, first, second := Bytes(a + [c]), a[..64], a[64..];
    assert a == first + second && a + [c] == first + (second + [c]);
    assert forall x :: x in first || x in second ==> x in a;
    BytesConcat(first, second + [c]);
    BytesConcat(second, [c]);
    AsciiBytes(first);
    AsciiBytes(second);
    assert Bytes([c]) == CharBytes(c);
    var tail := Bytes(second) + CharBytes(c);
    assert b[..64] == Bytes(first) && b[64..] == tail;
    assert tail[..64] == Bytes(second) + [Byte(c, 0)];
    FromUtf8Decodes(first);
    CutIsNoText(second, c);
  }

  /** Such a body is not the same after a second repair, whatever the label. */
  lemma CutBodyIsNotIdempotent(name: string, a: string, c: char)
    requires NoDash(name) && |a| == 127 && Ascii(a) && NoSpace(a) && NoDash(a) && Utf8Length(c) == 2
      && !IsSpace(Rust, c)
    ensures var value := Header(name) + (a + [c]) + Footer(name);
      Normalize(value).Repaired? && Normalize(Normalize(value).text) != Repaired(Normalize(value).text)
  {
    var body := a + [c];
    var value := Header(name) + body + Footer(name);
    DropSpaceIdentity(body);
    NoDashIsLabel(name);
    assert [] + value + [] == value;
    NormalizePreservesKey([], name, body, name, []);
    TrimmedBlock(name, body);
    DissectDamaged(name, body, name);
    SecondChunkIsCut(a, c);
    NormalizeTwice(value);
  }

  lemma TrimmedBlock(name: string, mid: string)
    requires NoDash(name)
    ensures var v := Header(name) + mid + Footer(name); Trim(Rust, v) == v
  {
    var v := Header(name) + mid + Footer(name);
    HeaderDashed(name);
    FooterDashed(name);
    assert v[0] == Header(name)[0] && v[|v| - 1] == Footer(name)[|Footer(name)| - 1];
    TrimIsTrimmed(Rust, v);
  }

  /** In particular a body of 127 letters and an accented one. */
  lemma RepairIsNotIdempotent() returns (value: string)
    ensures value == Header("KEY") + (seq(127, _ => 'A') + "\U{E9}") + Footer("KEY")
    ensures Normalize(value).Repaired? && Normalize(Normalize(value).text) != Repaired(Normalize(value).text)
  {
    var a := seq(127, _ => 'A');
    value := Header("KEY") + (a + "\U{E9}") + Footer("KEY");
    CutBodyIsNotIdempotent("KEY", a, '\U{E9}');
  }

  // ----- a value on which the two readers differ -----

  const ODDS_KEY := "ODDS_API_KEY"
  const SPLIT := "a\U{2028}b"

  /** A PUT accepts the value and the engine reads it back, but the script reads something else. */
  ghost predicate ReadDifferently(key: string, v: string) {
    && IsManaged(key) && Judge(key, v) == Keep(v)
    && Parse(Render(map[key := v])) == map[key := v] && PyParse(Render(map[key := v])) != map[key := v]
  }

  lemma ReadersDiffer(key: string, v: string)
    requires key == ODDS_KEY && v == SPLIT
    ensures ReadDifferently(key, v)
  {
    assert RAPTOR_KEYS[2] == key && MANAGED_KEYS[9] == key;
    assert |key| != |PEM_KEY|;
    PlainIsKept(key, v);
    assert ExtraBreak(v[1]);
    DifferentlyRead(key, v);
  }

  lemma DifferentlyRead(key: string, v: string)
    requires IsManaged(key) && Judge(key, v) == Keep(v) && !NoExtraBreak(v)
    ensures ReadDifferently(key, v)
  {
    ManagedIsOrdinary(key);
    KeptIsAdmissible(key, v);
    OneEntryDiffers(key, v, map[key := v]);
  }

  lemma OneEntryDiffers(key: string, v: string, m: Secrets)
    requires m == map[key := v] && IsEnvKey(key) && Admissible(v) && !PyClean(v)
    ensures Parse(Render(m)) == m && PyParse(Render(m)) != m
  {
    OneEntryIsHealthy(key, v, m);
    ReadersAgreeExactly(m);
  }

  lemma OneEntryIsHealthy(key: string, v: string, m: Secrets)
    requires m == map[key := v] && IsEnvKey(key) && Admissible(v) && !PyClean(v)
    ensures Healthy(m) && !(forall k :: k in m ==> PyClean(m[k]))
  {
    assert key in m && m[key] == v;
  }
}
