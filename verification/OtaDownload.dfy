/** The firmware download (firmware/src/ota.rs): read, hash and write chunks from a sender that
    may send anything, stop, fail or never stop; then compare with the verified manifest
    (shared/pc-remote-signing/src/lib.rs). SHA-256 is an arbitrary function of the bytes. */
module OtaDownload {
  import opened Wrappers
  import opened WireStrings

  datatype OtaError =
    | ClockNotSynced
    | Transport
    | UnexpectedStatus(status: int)
    | SizeMismatch(expected: nat, actual: nat)
    | ShaMismatch
    | Slot
    | ResponseTooLarge
    | BadManifest(reason: ManifestError)

  // ---------- Progress ----------

  const OTA_PROGRESS_STEP_PERCENT: nat := 5
  const CELLS: nat := 100 / OTA_PROGRESS_STEP_PERCENT

  function ProgressPercent(received: nat, total: nat): nat {
    if total == 0 then 0
    else (if received < total then received else total) * 100 / total
  }

  /** Filled cells of the progress bar: the percentage over the step, rounded up. */
  function FilledCells(percent: nat): nat {
    var cells := (percent * CELLS + 99) / 100;
    if cells < CELLS then cells else CELLS
  }

  lemma PercentBounds(received: nat, total: nat)
    ensures ProgressPercent(received, total) <= 100
    ensures total > 0 && received >= total ==> ProgressPercent(received, total) == 100
  {
    if total > 0 && received < total {
      assert received * 100 < total * 100;
      DivisionBound(received * 100, total, 100);
    } else if total > 0 {
      DivisionExact(100, total);
    }
  }

  /** The percentage is rounded down, and the bar shows a cell for every five points begun. */
  lemma PercentIsRoundedDown(received: nat, total: nat)
    requires total > 0 && received <= total
    ensures ProgressPercent(received, total) * total <= received * 100 < (ProgressPercent(received, total) + 1) * total
    ensures var cells := FilledCells(ProgressPercent(received, total));
      5 * cells - 5 < ProgressPercent(received, total) <= 5 * cells
  {
    PercentBounds(received, total);
    FloorDivision(received * 100, total);
    BarOfPercent(ProgressPercent(received, total));
    hide FilledCells;
  }

  lemma FloorDivision(a: nat, b: nat)
    requires b > 0
    ensures (a / b) * b <= a < (a / b + 1) * b
  {
    assert a == b * (a / b) + a % b;
  }

  lemma BarOfPercent(percent: nat)
    requires percent <= 100
    ensures 5 * FilledCells(percent) - 5 < percent <= 5 * FilledCells(percent)
  {
  }

  lemma DivisionBound(a: nat, b: nat, q: nat)
    requires b > 0 && a < b * q
    ensures a / b < q
  {
    FactorBound(b, a / b, q);
  }

  lemma DivisionExact(a: nat, b: nat)
    requires b > 0
    ensures b * a / b == a
  {
    var d := b * a / b;
    FactorBound(b, d, a + 1);
    FactorBound(b, a, d + 1);
  }

  lemma FactorBound(b: int, x: int, y: int)
    requires b > 0 && b * x < b * y
    ensures x < y
  {
    assert b * (x - y) < 0;
  }

  /** Reports made inside the loop: each rises by at least the step over the one before. */
  ghost predicate ReportsRise(reports: seq<nat>, size: nat) {
    forall i :: 0 <= i < |reports| ==> RisesAt(reports, size, i)
  }

  predicate RisesAt(reports: seq<nat>, size: nat, i: int)
    requires 0 <= i < |reports|
  {
    ProgressPercent(reports[i], size) >=
      (if i == 0 then 0 else ProgressPercent(reports[i - 1], size)) + 5
  }

  lemma NoReports(size: nat)
    ensures ReportsRise([], size)
  {
  }

  lemma OneMoreReport(reports: seq<nat>, size: nat, received: nat)
    requires ReportsRise(reports, size)
    requires ProgressPercent(received, size) >= OTA_PROGRESS_STEP_PERCENT
      + if reports == [] then 0 else ProgressPercent(reports[|reports| - 1], size)
    ensures ReportsRise(reports + [received], size)
  {
    hide ProgressPercent;
    forall i | 0 <= i < |reports| + 1 ensures RisesAt(reports + [received], size, i) {
      if i < |reports| {
        assert RisesAt(reports, size, i);
      }
    }
  }

  /** The reports of the loop's first `n` reads: one for every read after which the percentage
      has risen by the step since the last report. */
  ghost function LoopReports(readAt: nat -> Read, size: nat, n: nat): seq<nat> {
    if n == 0 then []
    else
      var before, received := LoopReports(readAt, size, n - 1), |Body(readAt, n)|;
      if ProgressPercent(received, size) >= LastPercent(before, size) + OTA_PROGRESS_STEP_PERCENT
      then before + [received] else before
  }

  ghost function LastPercent(reports: seq<nat>, size: nat): nat {
    if reports == [] then 0 else ProgressPercent(reports[|reports| - 1], size)
  }

  /** The last report never lags by five points, and it is never ahead. */
  lemma {:induction false} ReportsKeepUp(readAt: nat -> Read, size: nat, n: nat)
    ensures var reports := LoopReports(readAt, size, n);
      && ProgressPercent(|Body(readAt, n)|, size) < LastPercent(reports, size) + 5
      && ReportsRise(reports, size)
      && forall i :: 0 <= i < |reports| ==> reports[i] <= |Body(readAt, n)|
  {
    if n == 0 {
      NoReports(size);
    } else {
      var before, received := LoopReports(readAt, size, n - 1), |Body(readAt, n)|;
      ReportsKeepUp(readAt, size, n - 1);
      hide ProgressPercent, ReportsRise;
      if ProgressPercent(received, size) >= LastPercent(before, size) + 5 {
        OneMoreReport(before, size, received);
      }
    }
  }

  /** There are at most 20 such reports, however the sender cuts its chunks. */
  lemma {:induction false} ReportsAreFew(reports: seq<nat>, size: nat)
    requires ReportsRise(reports, size)
    ensures |reports| <= 20
    ensures reports != [] ==> ProgressPercent(reports[|reports| - 1], size) >= 5 * |reports|
  {
    hide ProgressPercent;
    if reports != [] {
      var before := reports[..|reports| - 1];
      forall i | 0 <= i < |before| ensures RisesAt(before, size, i) {
        assert RisesAt(reports, size, i);
      }
      ReportsAreFew(before, size);
      assert RisesAt(reports, size, |reports| - 1);
      PercentBounds(reports[|reports| - 1], size);
    }
  }

  /** And each one shows a longer bar than the one before. */
  lemma ReportsLengthenBar(reports: seq<nat>, size: nat, i: int)
    requires ReportsRise(reports, size) && 0 < i < |reports|
    ensures FilledCells(ProgressPercent(reports[i - 1], size)) < FilledCells(ProgressPercent(reports[i], size)) <= 20
  {
    hide ProgressPercent;
    assert RisesAt(reports, size, i);
    PercentBounds(reports[i - 1], size);
    PercentBounds(reports[i], size);
  }

  // ---------- The two devices the loop updates ----------

  class StreamingSha256 {
    const hash: Bytes -> string
    /** Everything fed so far; hashing it in pieces equals hashing it whole. */
    var fed: Bytes

    constructor (hash: Bytes -> string)
      ensures fed == [] && this.hash == hash
    {
      this.hash := hash;
      fed := [];
    }

    method Update(chunk: Bytes)
      modifies this
      ensures fed == old(fed) + chunk
    {
      fed := fed + chunk;
    }

    method FinishHex() returns (digest: string)
      ensures digest == hash(fed)
    {
      digest := hash(fed);
    }
  }

  /** The inactive OTA slot. An update that is not completed is aborted when dropped. */
  class OtaSlot {
    var written: Bytes
    var completed: bool

    constructor ()
      ensures written == [] && !completed
    {
      written, completed := [], false;
    }

    method Write(chunk: Bytes, ok: bool) returns (r: Result<(), OtaError>)
      modifies this`written
      ensures written == if ok then old(written) + chunk else old(written)
      ensures r == if ok then Ok(()) else Err(Slot)
    {
      if !ok {
        return Err(Slot);
      }
      written := written + chunk;
      return Ok(());
    }

    method Complete(ok: bool) returns (r: Result<(), OtaError>)
      modifies this`completed
      ensures completed == (old(completed) || ok)
      ensures r == if ok then Ok(()) else Err(Slot)
    {
      if !ok {
        return Err(Slot);
      }
      completed := true;
      return Ok(());
    }
  }

  // ---------- The sender ----------

  datatype Read = Data(chunk: Bytes) | Failed

  /** What becomes of a signed GET: it cannot be signed before the clock is synced, it fails
      without an answer, or it is answered with an HTTP status. */
  datatype Reply = NoClock | Unreachable | Status(code: int)

  /** What the bridge and the flash do: the reply, the outcome of every read (an empty chunk is
      the end of the body), and whether each write and the final activation work. */
  datatype World = World(reply: Reply, readAt: nat -> Read, writeOk: nat -> bool, activates: bool)

  /** The bytes of the first `n` reads. */
  function Body(readAt: nat -> Read, n: nat): Bytes {
    if n == 0 then []
    else Body(readAt, n - 1) + (if readAt(n - 1).Data? then readAt(n - 1).chunk else [])
  }

  predicate Delivers(readAt: nat -> Read, n: nat) {
    readAt(n).Data? && readAt(n).chunk != []
  }

  /** Read `n` delivers bytes, and the flash takes them. */
  predicate Stored(w: World, n: nat) {
    Delivers(w.readAt, n) && w.writeOk(n)
  }

  /** The loop goes on after read `n`: its bytes fit and are stored. */
  predicate Continues(w: World, size: nat, n: nat) {
    Stored(w, n) && |Body(w.readAt, n + 1)| <= size
  }

  /** The read at which the loop stops. */
  ghost function StopAt(w: World, size: nat, n: nat): (stop: nat)
    requires |Body(w.readAt, n)| <= size
    ensures n <= stop && !Continues(w, size, stop) && forall i: nat :: n <= i < stop ==> Continues(w, size, i)
    ensures |Body(w.readAt, stop)| <= size
    decreases size - |Body(w.readAt, n)|
  {
    if Continues(w, size, n) then StopAt(w, size, n + 1) else n
  }

  /** The loop's result, from the read that stopped it. */
  ghost function LoopResult(w: World, m: Manifest): Result<(), OtaError> {
    var stop := StopAt(w, m.size, 0);
    match w.readAt(stop)
    case Failed => Err(Transport)
    case Data(chunk) =>
      var incoming := |Body(w.readAt, stop)| + |chunk|;
      if chunk == [] then Ok(())
      else if incoming > m.size then Err(SizeMismatch(m.size, incoming))
      else Err(Slot)
  }

  // ---------- The download ----------

  /** Reads until the body ends, is too long, or fails. The reports are exactly those that
      `ReportsKeepUp` and `ReportsAreFew` are about. */
  method ReadLoop(m: Manifest, w: World, hashing: StreamingSha256, update: OtaSlot)
    returns (r: Result<(), OtaError>, reports: seq<nat>)
    requires hashing.fed == [] && update.written == []
    modifies hashing, update`written
    ensures r == LoopResult(w, m)
    ensures update.written == Body(w.readAt, StopAt(w, m.size, 0)) && |update.written| <= m.size
    ensures r.Ok? ==> hashing.fed == update.written
    ensures reports == LoopReports(w.readAt, m.size, StopAt(w, m.size, 0))
  {
    hide ProgressPercent;
    reports := [];
    var received, reportedPercent, k := 0, 0, 0;
    while true
      invariant k <= StopAt(w, m.size, 0) && received == |update.written| <= m.size
      invariant update.written == Body(w.readAt, k) == hashing.fed
      invariant reports == LoopReports(w.readAt, m.size, k) && reportedPercent == LastPercent(reports, m.size)
      decreases m.size - received
    {
      assert k < StopAt(w, m.size, 0) <==> Continues(w, m.size, k);
      var read := w.readAt(k);
      if read.Failed? {
        return Err(Transport), reports;
      }
      var chunk := read.chunk;
      if chunk == [] {
        return Ok(()), reports;
      }
      var incoming := received + |chunk|;
      if incoming > m.size {
        return Err(SizeMismatch(m.size, incoming)), reports;
      }
      hashing.Update(chunk);
      var written := update.Write(chunk, w.writeOk(k));
      if written.Err? {
        return Err(written.error), reports;
      }
      received := received + |chunk|;
      var percent := ProgressPercent(received, m.size);
      if percent >= reportedPercent + OTA_PROGRESS_STEP_PERCENT {
        reportedPercent := percent;
        reports := reports + [received];
      }
      k := k + 1;
    }
  }

  /** What `verify_ota_image` demands. */
  function VerifyImage(m: Manifest, size: nat, sha256: string): Result<(), OtaError> {
    if size != m.size then Err(SizeMismatch(m.size, size))
    else if sha256 != m.sha256 then Err(ShaMismatch)
    else Ok(())
  }

  /** The body that ends before read `n` is the image of the manifest. */
  ghost predicate Completes(w: World, m: Manifest, hash: Bytes -> string, n: nat) {
    && w.reply == Status(200) && w.activates
    && (forall i: nat :: i < n ==> Stored(w, i))
    && w.readAt(n) == Data([])
    && |Body(w.readAt, n)| == m.size && hash(Body(w.readAt, n)) == m.sha256
  }

  lemma {:induction false} BodyGrows(readAt: nat -> Read, a: nat, b: nat)
    requires a <= b
    ensures |Body(readAt, a)| <= |Body(readAt, b)|
    decreases b
  {
    if a < b {
      BodyGrows(readAt, a, b - 1);
    }
  }

  lemma CompletesWhereItStops(w: World, m: Manifest, hash: Bytes -> string, n: nat)
    requires Completes(w, m, hash, n)
    ensures StopAt(w, m.size, 0) == n
  {
    var stop := StopAt(w, m.size, 0);
    assert !Continues(w, m.size, n);
    if stop < n {
      BodyGrows(w.readAt, stop + 1, n);
    }
  }

  /** The whole update. `started` tells whether the slot could be opened. After the loop one
      more report is made, whatever its size; `applying` is the final message. */
  method DownloadAndFlash(m: Manifest, w: World, hash: Bytes -> string, started: bool, update: OtaSlot)
    returns (r: Result<(), OtaError>, reports: seq<nat>, applying: bool)
    requires update.written == [] && !update.completed
    modifies update
    // Never a byte beyond the announced size, whatever the sender does.
    ensures |update.written| <= m.size
    ensures update.written == if started && w.reply == Status(200) then Body(w.readAt, StopAt(w, m.size, 0)) else []
    // The slot is activated exactly when the sender's body is the manifest's image.
    ensures update.completed <==> started && exists n: nat :: Completes(w, m, hash, n)
    ensures r.Ok? == update.completed == applying
    ensures !started ==> r == Err(Slot)
    ensures started && w.reply == NoClock ==> r == Err(ClockNotSynced)
    ensures started && w.reply == Unreachable ==> r == Err(Transport)
    ensures started && w.reply.Status? && w.reply.code != 200 ==> r == Err(UnexpectedStatus(w.reply.code))
    ensures started && w.reply == Status(200) && LoopResult(w, m).Err? ==> r == LoopResult(w, m)
    ensures started && w.reply == Status(200) && LoopResult(w, m).Ok? ==>
      r == if |update.written| != m.size then Err(SizeMismatch(m.size, |update.written|))
           else if hash(update.written) != m.sha256 then Err(ShaMismatch)
           else if w.activates then Ok(()) else Err(Slot)
    // Reports: those of the loop and one more after it; a completed update ends at its size.
    ensures !started || w.reply != Status(200) ==> reports == []
    ensures started && w.reply == Status(200) ==>
      var loop := LoopReports(w.readAt, m.size, StopAt(w, m.size, 0));
      reports == if LoopResult(w, m).Ok? then loop + [|update.written|] else loop
    ensures update.completed ==> |reports| >= 1 && reports[|reports| - 1] == m.size
  {
    ghost var stop := StopAt(w, m.size, 0);
    assert forall n: nat :: Completes(w, m, hash, n) ==> stop == n by {
      forall n: nat | Completes(w, m, hash, n) ensures stop == n {
        CompletesWhereItStops(w, m, hash, n);
      }
    }
    reports, applying := [], false;
    if !started {
      return Err(Slot), reports, applying;
    }
    var hashing := new StreamingSha256(hash);
    match w.reply {
      case NoClock => return Err(ClockNotSynced), reports, applying;
      case Unreachable => return Err(Transport), reports, applying;
      case Status(code) =>
        if code != 200 {
          return Err(UnexpectedStatus(code)), reports, applying;
        }
    }
    r, reports := ReadLoop(m, w, hashing, update);
    if r.Err? {
      return r, reports, applying;
    }
    reports := reports + [|update.written|];
    var digest := hashing.FinishHex();
    r := VerifyImage(m, |update.written|, digest);
    if r.Err? {
      return r, reports, applying;
    }
    r := update.Complete(w.activates);
    forall i: nat | i < stop ensures Stored(w, i) {
      assert Continues(w, m.size, i);
    }
    assert r.Ok? ==> Completes(w, m, hash, stop);
    applying := r.Ok?;
  }

  // ---------- The manifest ----------

  const MANIFEST_MAX_BYTES: nat := 4096

  /** The request is answered and its body ends before read `n`, within 4096 bytes. */
  ghost predicate Delivered(reply: Reply, readAt: nat -> Read, n: nat) {
    && reply == Status(200)
    && (forall i: nat :: i < n ==> Delivers(readAt, i))
    && readAt(n) == Data([])
    && |Body(readAt, n)| <= 4096
  }

  /** Reads the whole body, or says why not. */
  method FetchBody(reply: Reply, readAt: nat -> Read) returns (r: Result<Bytes, OtaError>)
    ensures reply == NoClock ==> r == Err(ClockNotSynced)
    ensures reply == Unreachable ==> r == Err(Transport)
    ensures reply.Status? && reply.code != 200 ==> r == Err(UnexpectedStatus(reply.code))
    ensures reply == Status(200) ==>
      var stop := StopAt(NoFlash(reply, readAt), 4096, 0);
      r == match readAt(stop)
        case Failed => Err(Transport)
        case Data(chunk) => if chunk == [] then Ok(Body(readAt, stop)) else Err(ResponseTooLarge)
  {
    match reply {
      case NoClock => return Err(ClockNotSynced);
      case Unreachable => return Err(Transport);
      case Status(code) =>
        if code != 200 {
          return Err(UnexpectedStatus(code));
        }
    }
    ghost var w := NoFlash(reply, readAt);
    ghost var stop := StopAt(w, MANIFEST_MAX_BYTES, 0);
    var body, k := [], 0;
    while true
      invariant k <= stop && body == Body(readAt, k) && |body| <= MANIFEST_MAX_BYTES
      decreases MANIFEST_MAX_BYTES - |body|
    {
      assert k < stop <==> Continues(w, MANIFEST_MAX_BYTES, k);
      var read := readAt(k);
      if read.Failed? {
        return Err(Transport);
      }
      if read.chunk == [] {
        return Ok(body);
      }
      if |body| + |read.chunk| > MANIFEST_MAX_BYTES {
        return Err(ResponseTooLarge);
      }
      body := body + read.chunk;
      k := k + 1;
    }
  }

  /** Parses and checks a body; parsing is an arbitrary function of the body. */
  method CheckBody(body: Bytes, parse: Bytes -> Option<Manifest>, mac: string -> string)
    returns (r: Result<Manifest, OtaError>)
    ensures match parse(body)
      case None => r == Err(BadManifest(InvalidJson))
      case Some(m) =>
        if !PlausibleFields(m) then r.Err? && r.error.BadManifest? && r.error.reason.InvalidField?
        else if !Carries(m.signature, mac(ManifestText(m))) then r == Err(BadManifest(SignatureMismatch))
        else r == Ok(m)
  {
    hide PlausibleFields, Carries, SignatureMatches, ManifestText, ManifestCanonicalString;
    var parsed := parse(body);
    if parsed.None? {
      return Err(BadManifest(InvalidJson));
    }
    var m := parsed.value;
    FieldErrors(m);
    VerifiedExactlyWhen(mac, m);
    var fields := CheckManifestFields(m);
    if fields.Err? {
      return Err(BadManifest(fields.error));
    }
    if !SignatureMatches(mac, ManifestCanonicalString(m.version, m.size, m.sha256, m.createdAt), m.signature) {
      return Err(BadManifest(SignatureMismatch));
    }
    return Ok(m);
  }

  /** Fetches and checks the manifest. What a delivered body leads to is fixed by its text alone. */
  method FetchVerifiedManifest(
    reply: Reply, readAt: nat -> Read, parse: Bytes -> Option<Manifest>, mac: string -> string)
    returns (r: Result<Manifest, OtaError>)
    ensures forall n: nat :: Delivered(reply, readAt, n) ==>
      match parse(Body(readAt, n))
      case None => r == Err(BadManifest(InvalidJson))
      case Some(m) =>
        if !PlausibleFields(m) then r.Err? && r.error.BadManifest? && r.error.reason.InvalidField?
        else if !Carries(m.signature, mac(ManifestText(m))) then r == Err(BadManifest(SignatureMismatch))
        else r == Ok(m)
    ensures r.Ok? ==> exists n: nat :: Delivered(reply, readAt, n) && parse(Body(readAt, n)) == Some(r.value)
    ensures reply == NoClock ==> r == Err(ClockNotSynced)
    ensures reply == Unreachable ==> r == Err(Transport)
    ensures reply.Status? && reply.code != 200 ==> r == Err(UnexpectedStatus(reply.code))
    ensures reply == Status(200) && (forall n: nat :: !Delivered(reply, readAt, n)) ==>
      r == Err(Transport) || r == Err(ResponseTooLarge)
  {
    hide PlausibleFields, Carries, ManifestText;
    ghost var stop := StopAt(NoFlash(reply, readAt), 4096, 0);
    DeliveredAtStop(reply, readAt);
    hide StopAt, Delivered, Body;
    var body := FetchBody(reply, readAt);
    if body.Err? {
      return Err(body.error);
    }
    r := CheckBody(body.value, parse, mac);
  }

  /** A body can only be delivered where reading stops. */
  lemma DeliveredAtStop(reply: Reply, readAt: nat -> Read)
    ensures var stop := StopAt(NoFlash(reply, readAt), 4096, 0);
      && (forall n: nat :: Delivered(reply, readAt, n) ==> n == stop)
      && (Delivered(reply, readAt, stop) <==> reply == Status(200) && readAt(stop) == Data([]))
  {
    var w := NoFlash(reply, readAt);
    var stop := StopAt(w, 4096, 0);
    forall i: nat | i < stop ensures Delivers(readAt, i) {
      assert Continues(w, 4096, i);
    }
    forall n: nat | Delivered(reply, readAt, n) ensures n == stop {
      assert !Continues(w, 4096, n);
      if stop < n {
        BodyGrows(readAt, stop + 1, n);
      }
    }
  }

  /** The same sender, with nothing to write. */
  ghost function NoFlash(reply: Reply, readAt: nat -> Read): World {
    World(reply, readAt, (_: nat) => true, true)
  }
}
