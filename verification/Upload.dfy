/** Receiving a backup archive chunk by chunk. */
module Upload {
  import opened Wrappers

  const MAX_ARCHIVE_BYTES := 4 * 1024 * 1024 * 1024
  const SPACE_CHECK_EVERY := 256 * 1024 * 1024

  /** One item of the body stream; the flags say how the disk would answer after it. */
  datatype Arrival = Chunk(data: seq<bv8>, roomLeft: bool, writeOk: bool) | Interrupted

  datatype Refusal = BadRequest | PayloadTooLarge | InsufficientStorage | InternalError

  datatype Outcome = Staged(archive: seq<bv8>) | Refused(why: Refusal)

  function Size(a: Arrival): nat { if a.Chunk? then |a.data| else 0 }

  /** The bytes that have arrived with the first `n` items. */
  function Received(body: seq<Arrival>, n: nat): nat
    requires n <= |body|
  {
    if n == 0 then 0 else Received(body, n - 1) + Size(body[n - 1])
  }

  function Content(body: seq<Arrival>, n: nat): seq<bv8>
    requires n <= |body|
  {
    if n == 0 then [] else Content(body, n - 1) + if body[n - 1].Chunk? then body[n - 1].data else []
  }

  lemma {:induction false} ReceivedGrows(body: seq<Arrival>, i: nat, n: nat)
    requires i <= n <= |body|
    ensures Received(body, i) <= Received(body, n)
  {
    if i < n { ReceivedGrows(body, i, n - 1); }
  }

  /** The content is the chunks one after the other: each lies where the ones before it end. */
  lemma {:induction false} ChunkLies(body: seq<Arrival>, i: nat, n: nat)
    requires i < n <= |body| && body[i].Chunk?
    ensures |Content(body, n)| == Received(body, n) && Received(body, i + 1) <= Received(body, n)
    ensures Content(body, n)[Received(body, i)..Received(body, i + 1)] == body[i].data
  {
    ContentLength(body, i);
    ContentLength(body, n - 1);
    ReceivedGrows(body, i + 1, n);
    if i + 1 < n {
      ChunkLies(body, i, n - 1);
      SliceOfPrefix(Content(body, n - 1), Content(body, n), Received(body, i), Received(body, i + 1));
    }
  }

  lemma SliceOfPrefix(before: seq<bv8>, all: seq<bv8>, lo: nat, hi: nat)
    requires before <= all && lo <= hi <= |before|
    ensures all[lo..hi] == before[lo..hi]
  {
  }

  predicate SmallChunks(body: seq<Arrival>) {
    forall i :: 0 <= i < |body| ==> Size(body[i]) <= SPACE_CHECK_EVERY
  }

  /** Item `i` is a chunk that can be stored: it stays within the limit, can be written, and if it brings the
      total across a multiple of 256 MiB there is room left at that moment. */
  predicate Storable(body: seq<Arrival>, i: nat)
    requires i < |body|
  {
    && body[i].Chunk? && body[i].writeOk && Received(body, i + 1) <= MAX_ARCHIVE_BYTES
    && (Received(body, i) / SPACE_CHECK_EVERY < Received(body, i + 1) / SPACE_CHECK_EVERY ==> body[i].roomLeft)
  }

  ghost predicate AllStorable(body: seq<Arrival>) { forall i: nat :: i < |body| ==> Storable(body, i) }

  ghost predicate FirstUnstorable(body: seq<Arrival>, i: nat) {
    i < |body| && !Storable(body, i) && forall j: nat :: j < i ==> Storable(body, j)
  }

  /** What an item that cannot be stored is refused with: the limit comes before the free space, and that before a
      failing disk. */
  function Why(body: seq<Arrival>, i: nat): Refusal
    requires i < |body|
  {
    if body[i].Interrupted? then BadRequest
    else if Received(body, i + 1) > MAX_ARCHIVE_BYTES then PayloadTooLarge
    else if Received(body, i) / SPACE_CHECK_EVERY < Received(body, i + 1) / SPACE_CHECK_EVERY && !body[i].roomLeft then
      InsufficientStorage
    else InternalError
  }

  /** The size that was declared rules the upload out before it begins. */
  predicate Admitted(declared: Option<nat>, roomAtStart: bool) {
    declared.Some? ==> declared.value <= MAX_ARCHIVE_BYTES && roomAtStart
  }

  /** What it takes for an upload to be handed on. */
  ghost predicate Complete(declared: Option<nat>, roomAtStart: bool, body: seq<Arrival>, syncOk: bool) {
    && (declared.Some? ==> declared.value <= MAX_ARCHIVE_BYTES && roomAtStart)
    && (declared.Some? ==> declared.value == Received(body, |body|))
    && (forall i: nat :: i < |body| ==> Storable(body, i))
    && syncOk
  }

  lemma {:induction false} ContentLength(body: seq<Arrival>, n: nat)
    requires n <= |body|
    ensures |Content(body, n)| == Received(body, n)
  {
    if n > 0 { ContentLength(body, n - 1); }
  }

  /** A step of at most 256 MiB crosses at most one threshold, and crosses it exactly when the quotient grows. */
  lemma Threshold(before: nat, after: nat, checks: nat)
    requires checks * SPACE_CHECK_EVERY <= before < (checks + 1) * SPACE_CHECK_EVERY
    requires before <= after <= before + SPACE_CHECK_EVERY
    ensures before / SPACE_CHECK_EVERY == checks
    ensures after / SPACE_CHECK_EVERY == if after >= (checks + 1) * SPACE_CHECK_EVERY then checks + 1 else checks
  {
  }

  /** One chunk: count it, check free space if a threshold is reached, and name the first reason to refuse. */
  method TakeChunk(chunk: Arrival, received: nat, nextCheck: nat)
    returns (total: nat, next: nat, refusal: Option<Refusal>)
    requires chunk.Chunk?
    ensures total == received + |chunk.data|
    ensures next == if total >= nextCheck then nextCheck + SPACE_CHECK_EVERY else nextCheck
    ensures refusal == if total > MAX_ARCHIVE_BYTES then Some(PayloadTooLarge)
      else if total >= nextCheck && !chunk.roomLeft then Some(InsufficientStorage)
      else if !chunk.writeOk then Some(InternalError) else None
  {
    total, next, refusal := received + |chunk.data|, nextCheck, None;
    var lowSpace := false;
    if total >= nextCheck {
      next := nextCheck + SPACE_CHECK_EVERY;
      lowSpace := !chunk.roomLeft;
    }
    if total > MAX_ARCHIVE_BYTES {
      refusal := Some(PayloadTooLarge);
    } else if lowSpace {
      refusal := Some(InsufficientStorage);
    } else if !chunk.writeOk {
      refusal := Some(InternalError);
    }
  }

  lemma ChunkStorable(body: seq<Arrival>, i: nat, checks: nat)
    requires i < |body| && body[i].Chunk? && SmallChunks(body)
    requires checks * SPACE_CHECK_EVERY <= Received(body, i) < (checks + 1) * SPACE_CHECK_EVERY
    ensures Storable(body, i) <==>
      && body[i].writeOk && Received(body, i + 1) <= MAX_ARCHIVE_BYTES
      && (Received(body, i + 1) >= (checks + 1) * SPACE_CHECK_EVERY ==> body[i].roomLeft)
    ensures Received(body, i + 1) / SPACE_CHECK_EVERY ==
      if Received(body, i + 1) >= (checks + 1) * SPACE_CHECK_EVERY then checks + 1 else checks
  {
    Threshold(Received(body, i), Received(body, i + 1), checks);
  }

  /** `received` counts the bytes that arrived before the request ended, `checks` how often free space was checked. */
  method RestoreUpload(declared: Option<nat>, roomAtStart: bool, body: seq<Arrival>, syncOk: bool)
    returns (r: Outcome, received: nat, checks: nat)
    ensures r.Staged? ==>
      && r.archive == Content(body, |body|) && |r.archive| == received == Received(body, |body|) <= 0x1_0000_0000
      && (declared.Some? ==> |r.archive| == declared.value)
    ensures checks * SPACE_CHECK_EVERY <= received
    ensures SmallChunks(body) ==> received < (checks + 1) * SPACE_CHECK_EVERY && checks == received / SPACE_CHECK_EVERY
    ensures SmallChunks(body) ==> (r.Staged? <==> Complete(declared, roomAtStart, body, syncOk))
    ensures declared.Some? && declared.value > MAX_ARCHIVE_BYTES ==> r == Refused(PayloadTooLarge)
    ensures declared.Some? && declared.value <= MAX_ARCHIVE_BYTES && !roomAtStart ==> r == Refused(InsufficientStorage)
    ensures SmallChunks(body) && Admitted(declared, roomAtStart) ==>
      forall i: nat :: FirstUnstorable(body, i) ==> r == Refused(Why(body, i))
    ensures SmallChunks(body) && Admitted(declared, roomAtStart) && AllStorable(body) ==>
      (!syncOk ==> r == Refused(InternalError)) && (syncOk ==> r.Staged? || r == Refused(BadRequest))
  {
    received, checks := 0, 0;
    if declared.Some? {
      if declared.value > MAX_ARCHIVE_BYTES { return Refused(PayloadTooLarge), 0, 0; }
      if !roomAtStart { return Refused(InsufficientStorage), 0, 0; }
    }
    var file := [];
    var nextCheck := SPACE_CHECK_EVERY;
    for i := 0 to |body|
      invariant received == Received(body, i) <= MAX_ARCHIVE_BYTES && file == Content(body, i)
      invariant nextCheck == (checks + 1) * SPACE_CHECK_EVERY && checks * SPACE_CHECK_EVERY <= received
      invariant SmallChunks(body) ==> received < nextCheck && checks == received / SPACE_CHECK_EVERY
      invariant SmallChunks(body) ==> forall j: nat :: j < i ==> Storable(body, j)
    {
      if body[i].Interrupted? {
        assert !Storable(body, i);
        return Refused(BadRequest), received, checks;
      }
      if SmallChunks(body) { ChunkStorable(body, i, checks); }
      var total, next, refusal := TakeChunk(body[i], received, nextCheck);
      if next != nextCheck { checks := checks + 1; }
      received, nextCheck := total, next;
      if refusal.Some? {
        assert SmallChunks(body) ==> FirstUnstorable(body, i) && refusal.value == Why(body, i);
        return Refused(refusal.value), received, checks;
      }
      file := file + body[i].data;
    }
    ContentLength(body, |body|);
    if !syncOk { return Refused(InternalError), received, checks; }
    if declared.Some? && received != declared.value { return Refused(BadRequest), received, checks; }
    r := Staged(file);
  }
}
