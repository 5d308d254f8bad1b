/** What rebuilding a PEM block guarantees: the key survives, and repairing twice is repairing once. */
module PemRepair {
  import opened Escaping
  import opened Pem
  import opened Text
  import opened Wrappers

  // ----- what the 64-byte pieces decode to -----

  /** All characters that survive the cut into pieces. */
  function Decoded(b: seq<Byte>): string {
    if b == [] then [] else OrEmpty(FromUtf8(b[..Cut(b)])) + Decoded(b[Cut(b)..])
  }

  /** No piece starts or ends inside a character. */
  predicate Lossless(b: seq<Byte>) {
    b == [] || (FromUtf8(b[..Cut(b)]).Some? && Lossless(b[Cut(b)..]))
  }

  function Pieces(b: seq<Byte>): nat {
    if b == [] then 0 else 1 + Pieces(b[Cut(b)..])
  }

  lemma {:induction false} BytesConcat(s: string, t: string)
    ensures Bytes(s + t) == Bytes(s) + Bytes(t)
  {
    if s == [] {
      assert s + t == t;
    } else {
      assert (s + t)[1..] == s[1..] + t;
      BytesConcat(s[1..], t);
    }
  }

  lemma BytesCons(c: char, s: string, b: seq<Byte>)
    requires Bytes(s) == b
    ensures Bytes([c] + s) == CharBytes(c) + b
  {
    assert ([c] + s)[1..] == s;
  }

  lemma {:induction false} FromUtf8Inverts(b: seq<Byte>)
    requires FromUtf8(b).Some?
    ensures Bytes(FromUtf8(b).value) == b
  {
    if b != [] {
      var c, n := b[0].of, Utf8Length(b[0].of);
      assert b[..n] == CharBytes(c);
      FromUtf8Inverts(b[n..]);
      BytesCons(c, FromUtf8(b[n..]).value, b[n..]);
      assert b == CharBytes(c) + b[n..];
    }
  }

  lemma {:induction false} FromUtf8Decodes(s: string)
    ensures FromUtf8(Bytes(s)) == Some(s)
  {
    if s != [] {
      FromUtf8Decodes(s[1..]);
      var b, n := Bytes(s), Utf8Length(s[0]);
      assert b[0] == CharBytes(s[0])[0] == Byte(s[0], 0);
      assert b[..n] == CharBytes(s[0]);
      assert b[n..] == Bytes(s[1..]);
      assert s == [s[0]] + s[1..];
    }
  }

  lemma {:induction false} LosslessBytes(b: seq<Byte>)
    requires Lossless(b)
    ensures Bytes(Decoded(b)) == b
  {
    if b != [] {
      var c := Cut(b);
      FromUtf8Inverts(b[..c]);
      LosslessBytes(b[c..]);
      BytesConcat(FromUtf8(b[..c]).value, Decoded(b[c..]));
      assert b == b[..c] + b[c..];
    }
  }

  /** When no character straddles a cut, the body lines hold the whole body. */
  lemma LosslessDecodes(s: string)
    requires Lossless(Bytes(s))
    ensures Decoded(Bytes(s)) == s
  {
    LosslessBytes(Bytes(s));
    FromUtf8Decodes(s);
    FromUtf8Decodes(Decoded(Bytes(s)));
  }

  // ----- counting what is lost otherwise -----

  function Starts(b: seq<Byte>): nat {
    if b == [] then 0 else (if b[0].at == 0 then 1 else 0) + Starts(b[1..])
  }

  lemma {:induction false} StartsConcat(a: seq<Byte>, b: seq<Byte>)
    ensures Starts(a + b) == Starts(a) + Starts(b)
  {
    if a == [] {
      assert a + b == b;
    } else {
      assert (a + b)[1..] == a[1..] + b;
      StartsConcat(a[1..], b);
    }
  }

  lemma {:induction false} NoStarts(b: seq<Byte>)
    requires forall i :: 0 <= i < |b| ==> b[i].at != 0
    ensures Starts(b) == 0
  {
    if b != [] { NoStarts(b[1..]); }
  }

  lemma {:induction false} StartsOfBytes(s: string)
    ensures Starts(Bytes(s)) == |s|
  {
    if s != [] {
      StartsOfBytes(s[1..]);
      var first := CharBytes(s[0]);
      StartsConcat(first, Bytes(s[1..]));
      NoStarts(first[1..]);
    }
  }

  lemma {:induction false} DecodedIsBounded(b: seq<Byte>)
    ensures |Decoded(b)| <= Starts(b)
  {
    if b != [] {
      var c := Cut(b);
      DecodedIsBounded(b[c..]);
      assert b == b[..c] + b[c..];
      StartsConcat(b[..c], b[c..]);
      if FromUtf8(b[..c]).Some? {
        FromUtf8Inverts(b[..c]);
        StartsOfBytes(FromUtf8(b[..c]).value);
      }
    }
  }

  lemma {:induction false} PiecesBound(b: seq<Byte>, k: nat)
    requires |b| <= WIDTH * k
    ensures Pieces(b) <= k
  {
    if b != [] { PiecesBound(b[Cut(b)..], k - 1); }
  }

  lemma {:induction false} SurvivingBytes(b: seq<Byte>)
    ensures |Bytes(Decoded(b))| <= WIDTH * Pieces(b)
    ensures !Lossless(b) ==> Pieces(b) > 0 && |Bytes(Decoded(b))| <= WIDTH * (Pieces(b) - 1)
  {
    if b != [] {
      var c := Cut(b);
      SurvivingBytes(b[c..]);
      BytesConcat(OrEmpty(FromUtf8(b[..c])), Decoded(b[c..]));
      if FromUtf8(b[..c]).Some? { FromUtf8Inverts(b[..c]); }
    }
  }

  lemma {:induction false} WrapLength(b: seq<Byte>)
    ensures |Wrap(b)| == |Decoded(b)| + Pieces(b)
  {
    if b != [] { WrapLength(b[Cut(b)..]); }
  }

  /** Cutting what survived reproduces the same lines exactly when nothing was lost. */
  lemma RewrapExactly(b: seq<Byte>)
    ensures Wrap(Bytes(Decoded(b))) == Wrap(b) <==> Lossless(b)
  {
    if Lossless(b) {
      LosslessBytes(b);
    } else {
      var again := Bytes(Decoded(b));
      SurvivingBytes(b);
      PiecesBound(again, Pieces(b) - 1);
      DecodedIsBounded(again);
      StartsOfBytes(Decoded(b));
      WrapLength(b);
      WrapLength(again);
    }
  }

  // ----- white space -----

  predicate NoSpace(s: string) {
    forall c :: c in s ==> !IsSpace(Rust, c)
  }

  lemma {:induction false} DropSpaceConcat(a: string, b: string)
    ensures DropSpace(a + b) == DropSpace(a) + DropSpace(b)
  {
    if a == [] {
      assert a + b == b;
    } else {
      assert (a + b)[1..] == a[1..] + b;
      DropSpaceConcat(a[1..], b);
    }
  }

  lemma {:induction false} DropSpaceIdentity(s: string)
    requires NoSpace(s)
    ensures DropSpace(s) == s
  {
    if s != [] { DropSpaceIdentity(s[1..]); }
  }

  lemma {:induction false} DropSpaceLeavesNone(s: string)
    ensures NoSpace(DropSpace(s))
  {
    if s != [] { DropSpaceLeavesNone(s[1..]); }
  }

  /** Every byte belongs to a character that is not white space. */
  ghost predicate InkOnly(b: seq<Byte>) {
    forall i :: 0 <= i < |b| ==> !IsSpace(Rust, b[i].of)
  }

  lemma {:induction false} BytesInk(s: string)
    requires NoSpace(s)
    ensures InkOnly(Bytes(s))
  {
    if s != [] { BytesInk(s[1..]); }
  }

  lemma {:induction false} FromUtf8Ink(b: seq<Byte>)
    requires InkOnly(b)
    ensures NoSpace(OrEmpty(FromUtf8(b)))
  {
    if b != [] && FromUtf8(b).Some? { FromUtf8Ink(b[Utf8Length(b[0].of)..]); }
  }

  lemma DropSpaceOfLine(line: string, rest: string)
    requires NoSpace(line)
    ensures DropSpace(line + "\n" + rest) == line + DropSpace(rest)
  {
    var tail := "\n" + rest;
    assert tail[1..] == rest && line + "\n" + rest == line + tail;
    DropSpaceIdentity(line);
    DropSpaceConcat(line, tail);
  }

  lemma {:induction false} DropSpaceWrap(b: seq<Byte>)
    requires InkOnly(b)
    ensures DropSpace(Wrap(b)) == Decoded(b)
  {
    if b != [] {
      var c := Cut(b);
      var line := OrEmpty(FromUtf8(b[..c]));
      FromUtf8Ink(b[..c]);
      DropSpaceWrap(b[c..]);
      DropSpaceOfLine(line, Wrap(b[c..]));
    }
  }

  // ----- repairing twice -----

  /** The bytes of the body that a repair lays out, or none when it changes nothing. */
  function BodyBytes(value: string): seq<Byte> {
    match Dissect(Trim(Rust, value))
    case Block(_, body, _) => Bytes(body)
    case _ => []
  }

  lemma {:induction false} DissectAgain(h: string, body: string, f: string)
    requires IsHeader(h) && IsFooter(f) && NoSpace(body)
    ensures var v, kept := Rebuild(h, body, f), Decoded(Bytes(body));
      Trim(Rust, v) == v && Contains(v, END)
      && Dissect(v) == if kept == [] then NotPem else Block(h, kept, f)
  {
    BytesInk(body);
    DropSpaceWrap(Bytes(body));
    DissectRebuilt(h, Wrap(Bytes(body)), f);
    RebuiltIsTrimmed(h, Wrap(Bytes(body)), f);
  }

  lemma BlockHasInk(v: string)
    requires Dissect(v).Block?
    ensures NoSpace(Dissect(v).body)
  {
    var m := Locate(v).value;
    DropSpaceLeavesNone(v[m.hdrEnd..m.ftrStart]);
  }

  /** Repairing a repaired value changes nothing exactly when no piece, or every piece, of the body
      was dropped for splitting a character. */
  lemma {:induction false} NormalizeTwice(value: string)
    requires Normalize(value).Repaired?
    ensures var once := Normalize(value).text;
      Normalize(once) == Repaired(once) <==>
        Lossless(BodyBytes(value)) || Decoded(BodyBytes(value)) == []
  {
    var v := Trim(Rust, value);
    if Dissect(v).Block? {
      var Block(h, body, f) := Dissect(v);
      BlockIsMarked(v);
      BlockHasInk(v);
      DissectAgain(h, body, f);
      RewrapExactly(Bytes(body));
      var kept := Decoded(Bytes(body));
      if kept != [] {
        SameMiddle(h, "\n" + Wrap(Bytes(kept)), "\n" + Wrap(Bytes(body)), f);
        SameMiddle("\n", Wrap(Bytes(kept)), Wrap(Bytes(body)), "");
      }
    }
  }

  lemma SameMiddle(a: string, x: string, y: string, b: string)
    ensures a + x + b == a + y + b <==> x == y
  {
    if a + x + b == a + y + b {
      assert |x| == |y|;
      assert (a + x + b)[|a|..|a| + |x|] == x;
      assert (a + y + b)[|a|..|a| + |y|] == y;
    }
  }

  predicate Ascii(s: string) {
    forall c :: c in s ==> c as int < 0x80
  }

  lemma {:induction false} AsciiFromUtf8(b: seq<Byte>)
    requires forall i :: 0 <= i < |b| ==> b[i].of as int < 0x80 && b[i].at == 0
    ensures FromUtf8(b).Some?
  {
    if b != [] {
      AsciiFromUtf8(b[1..]);
      assert b[..1] == CharBytes(b[0].of);
    }
  }

  lemma {:induction false} AsciiPieces(b: seq<Byte>)
    requires forall i :: 0 <= i < |b| ==> b[i].of as int < 0x80 && b[i].at == 0
    ensures Lossless(b)
  {
    if b != [] {
      AsciiFromUtf8(b[..Cut(b)]);
      AsciiPieces(b[Cut(b)..]);
    }
  }

  lemma {:induction false} AsciiBytes(s: string)
    requires Ascii(s)
    ensures |Bytes(s)| == |s| && forall i :: 0 <= i < |s| ==> Bytes(s)[i] == Byte(s[i], 0)
  {
    if s != [] {
      assert forall c :: c in s[1..] ==> c in s;
      AsciiBytes(s[1..]);
      assert s[0] in s && CharBytes(s[0]) == [Byte(s[0], 0)];
    }
  }

  /** An ASCII body, which is every real key, is laid out without loss. */
  lemma AsciiIsLossless(s: string)
    requires Ascii(s)
    ensures Lossless(Bytes(s)) && Decoded(Bytes(s)) == s
  {
    AsciiBytes(s);
    assert forall i :: 0 <= i < |s| ==> s[i] in s;
    AsciiPieces(Bytes(s));
    LosslessDecodes(s);
  }

  /** Repair is idempotent on every value whose body is ASCII. */
  lemma NormalizeIdempotent(value: string)
    requires Normalize(value).Repaired?
    requires Dissect(Trim(Rust, value)).Block? ==> Ascii(Dissect(Trim(Rust, value)).body)
    ensures var once := Normalize(value).text; Normalize(once) == Repaired(once)
  {
    NormalizeTwice(value);
    if Dissect(Trim(Rust, value)).Block? { AsciiIsLossless(Dissect(Trim(Rust, value)).body); }
  }
}
