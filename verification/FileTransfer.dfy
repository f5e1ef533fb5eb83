/**
 Copying files into a container (app/services/workspace/file_sync.py, `_write_to_container`).

 A transfer writes the Base64 text of a file to a temporary file, chunk by chunk, then decodes it to
 the destination and removes the temporary file.  Each command runs in the container atomically;
 the commands of concurrent transfers interleave.
 */
module FileTransfer {
  import opened Bytes
  import opened Wrappers
  import opened Sequences
  import Base64

  type Path = string

  type Files = map<Path, bytes>

  const CHUNK_SIZE: nat := 60000
  const TMP_PREFIX: Path := "/tmp/_ws_xfer_"
  const WORKSPACE: Path := "/workspace/"
  const MAX_CONCURRENT: nat := 5

  datatype Transfer = Transfer(dest: Path, data: bytes) {
    /** The last segment of the destination. */
    function BaseName(): Path {
      LastSegment(dest)
    }

    function Tmp(): Path {
      TMP_PREFIX + BaseName()
    }

    function Text(): bytes {
      Base64.Encode(data)
    }

    function ChunkCount(): (n: nat)
      ensures n == 0 <==> Text() == []
    {
      (|Text()| + CHUNK_SIZE - 1) / CHUNK_SIZE
    }

    /** The part of the text that the first `k` chunks cover. */
    function Written(k: nat): bytes {
      if k * CHUNK_SIZE <= |Text()| then Text()[..k * CHUNK_SIZE] else Text()
    }

    function Chunk(k: nat): bytes {
      var rest := if k * CHUNK_SIZE <= |Text()| then Text()[k * CHUNK_SIZE..] else [];
      if |rest| <= CHUNK_SIZE then rest else rest[..CHUNK_SIZE]
    }
  }

  function LastSegment(p: Path): Path {
    if p == "" || p[|p| - 1] == '/' then "" else LastSegment(p[..|p| - 1]) + [p[|p| - 1]]
  }

  lemma ChunksCoverText(t: Transfer, k: nat)
    ensures t.Written(0) == []
    ensures t.Written(k + 1) == t.Written(k) + t.Chunk(k)
    ensures t.Written(t.ChunkCount()) == t.Text()
    ensures |t.Chunk(k)| <= 60000 && (k + 1 < t.ChunkCount() ==> |t.Chunk(k)| == 60000)
    ensures k < t.ChunkCount() ==> t.Chunk(k) != []
  {
  }

  /** The temporary file carries the name behind the last slash of the destination. */
  lemma TemporaryName(t: Transfer) returns (k: nat)
    ensures t.Tmp() == "/tmp/_ws_xfer_" + t.BaseName()
    ensures k <= |t.dest| && t.BaseName() == t.dest[k..] && '/' !in t.dest[k..]
    ensures k > 0 ==> t.dest[k - 1] == '/'
  {
    k := LastSegmentIs(t.dest);
  }

  lemma {:induction false} LastSegmentIs(p: Path) returns (k: nat)
    ensures k <= |p| && LastSegment(p) == p[k..] && '/' !in p[k..] && (k > 0 ==> p[k - 1] == '/')
  {
    k := |p|;
    if p != "" && p[|p| - 1] != '/' {
      var n := |p| - 1;
      k := LastSegmentIs(p[..n]);
      assert p[..n][k..] + [p[n]] == p[k..];
    }
  }

  // ---- the commands ----

  /** printf '%s' chunk > tmp, or >> tmp after the first chunk. */
  function WriteChunk(fs: Files, t: Transfer, k: nat): Files {
    var before := if k > 0 && t.Tmp() in fs then fs[t.Tmp()] else [];
    fs[t.Tmp() := before + t.Chunk(k)]
  }

  /** base64 -d < tmp > dest && rm -f tmp, when the temporary file holds decodable text. */
  predicate CanDecode(fs: Files, t: Transfer) {
    t.Tmp() in fs && Base64.Decode(fs[t.Tmp()]).Some?
  }

  function DecodeToDest(fs: Files, t: Transfer): Files
    requires CanDecode(fs, t)
  {
    fs[t.dest := Base64.Decode(fs[t.Tmp()]).value] - {t.Tmp()}
  }

  // ---- interleaved transfers ----

  /**
   `Writing(k)`: k chunks written; the decode command comes after the last chunk.  A transfer is `Failed`
   once it has removed its temporary file and `Abandoned` if it ended without having done so.
   */
  datatype Status = Writing(k: nat) | CleaningUp | Done | Failed | Abandoned

  predicate Ended(st: Status) {
    st.Done? || st.Failed? || st.Abandoned?
  }

  datatype World = World(files: Files, status: seq<Status>)

  /** A command works, exits with an error, or its call raises, with or without the command having run. */
  datatype Fault = Works | Exits | Raises(completed: bool)

  /** The next command of one transfer; a command that goes wrong may leave something in the file it wrote. */
  datatype Action = Action(who: nat, fault: Fault, left: Option<bytes>)

  function Start(ts: seq<Transfer>, fs: Files): World {
    World(fs, seq(|ts|, _ => Writing(0)))
  }

  function Leave(fs: Files, p: Path, left: Option<bytes>): Files {
    if left.Some? then fs[p := left.value] else fs
  }

  function ChunkCommand(fs: Files, t: Transfer, k: nat, a: Action): (Files, Status) {
    match a.fault
    case Works => (WriteChunk(fs, t, k), Writing(k + 1))
    case Exits => (Leave(fs, t.Tmp(), a.left), CleaningUp)
    case Raises(completed) => (if completed then WriteChunk(fs, t, k) else Leave(fs, t.Tmp(), a.left), Abandoned)
  }

  function DecodeCommand(fs: Files, t: Transfer, a: Action): (Files, Status) {
    match a.fault
    case Works =>
      if CanDecode(fs, t) then (DecodeToDest(fs, t), Done)
      else (if t.Tmp() in fs then Leave(fs, t.dest, a.left) else fs, CleaningUp)
    case Exits => (Leave(fs, t.dest, a.left), CleaningUp)
    case Raises(completed) =>
      (if completed && CanDecode(fs, t) then DecodeToDest(fs, t) else Leave(fs, t.dest, a.left), Abandoned)
  }

  /** rm -f tmp; its exit code is not looked at. */
  function RemoveCommand(fs: Files, t: Transfer, a: Action): (Files, Status) {
    match a.fault
    case Works => (fs - {t.Tmp()}, Failed)
    case Exits => (fs, Abandoned)
    case Raises(completed) => (if completed then fs - {t.Tmp()} else fs, Abandoned)
  }

  /** One command of transfer `t`, which is in state `st`. */
  function Command(fs: Files, t: Transfer, st: Status, a: Action): (Files, Status) {
    match st
    case Writing(k) => if k < t.ChunkCount() then ChunkCommand(fs, t, k, a) else DecodeCommand(fs, t, a)
    case CleaningUp => RemoveCommand(fs, t, a)
    case _ => (fs, st)
  }

  function Step(ts: seq<Transfer>, w: World, a: Action): World
    requires |w.status| == |ts|
  {
    if a.who >= |ts| then w
    else
      var (fs, st) := Command(w.files, ts[a.who], w.status[a.who], a);
      World(fs, w.status[a.who := st])
  }

  function Run(ts: seq<Transfer>, w: World, actions: seq<Action>): (w': World)
    requires |w.status| == |ts|
    ensures |w'.status| == |ts|
  {
    if actions == [] then w else Step(ts, Run(ts, w, actions[..|actions| - 1]), actions[|actions| - 1])
  }

  /** How many commands of transfer `i` a schedule contains. */
  function Commands(actions: seq<Action>, i: nat): nat {
    if actions == [] then 0
    else Commands(actions[..|actions| - 1], i) + (if actions[|actions| - 1].who == i then 1 else 0)
  }

  predicate FaultFree(actions: seq<Action>) {
    forall a :: a in actions ==> a.fault == Works
  }

  /** Destinations are pairwise distinct files of the workspace, as the database key makes them. */
  ghost predicate WorkspaceFiles(ts: seq<Transfer>) {
    && (forall i :: 0 <= i < |ts| ==> WORKSPACE <= ts[i].dest)
    && (forall i, j :: 0 <= i < j < |ts| ==> ts[i].dest != ts[j].dest)
  }

  ghost predicate DistinctBaseNames(ts: seq<Transfer>) {
    forall i, j :: 0 <= i < j < |ts| ==> ts[i].BaseName() != ts[j].BaseName()
  }

  ghost predicate NonEmpty(ts: seq<Transfer>) {
    forall i :: 0 <= i < |ts| ==> ts[i].data != []
  }

  /** Where a transfer can stand, and what its two files then hold. */
  ghost predicate Coherent(fs: Files, t: Transfer, st: Status) {
    match st
    case Writing(k) =>
      k <= t.ChunkCount() && (k > 0 ==> t.Tmp() in fs && fs[t.Tmp()] == t.Written(k))
    case CleaningUp => true
    case Abandoned => true
    case Done => t.dest in fs && fs[t.dest] == t.data && t.Tmp() !in fs
    case Failed => t.Tmp() !in fs
  }

  lemma TmpIsNotDest(t: Transfer, u: Transfer)
    requires WORKSPACE <= u.dest
    ensures t.Tmp() != u.dest
  {
    assert t.Tmp()[1] == 't' && u.dest[1] == 'w';
  }

  lemma TmpIsInjective(t: Transfer, u: Transfer)
    requires t.BaseName() != u.BaseName()
    ensures t.Tmp() != u.Tmp()
  {
    Seam(TMP_PREFIX, t.BaseName());
    Seam(TMP_PREFIX, u.BaseName());
  }

  /** Each chunk extends the written part of the text; the first one starts it afresh. */
  lemma ChunkExtends(fs: Files, t: Transfer, k: nat)
    requires k > 0 ==> t.Tmp() in fs && fs[t.Tmp()] == t.Written(k)
    ensures WriteChunk(fs, t, k) == fs[t.Tmp() := t.Written(k + 1)]
  {
    ChunksCoverText(t, k);
    EmptyUnit(t.Chunk(0));
  }

  /** Writing the next chunk. */
  lemma OwnChunk(fs: Files, t: Transfer, k: nat, a: Action)
    requires t.data != [] && k < t.ChunkCount()
    requires Coherent(fs, t, Writing(k))
    ensures var (fs', st') := Command(fs, t, Writing(k), a);
            Coherent(fs', t, st') && (a.fault == Works ==> st' == Writing(k + 1))
  {
    ChunkExtends(fs, t, k);
  }

  lemma AllWritten(fs: Files, t: Transfer, k: nat)
    requires t.data != [] && k >= t.ChunkCount() && Coherent(fs, t, Writing(k))
    ensures t.Tmp() in fs && fs[t.Tmp()] == t.Text() && Base64.Decode(fs[t.Tmp()]) == Some(t.data)
  {
    Base64.EncodedTextIsShellSafe(t.data);
    Base64.DecodeEncode(t.data);
    ChunksCoverText(t, 0);
  }

  /** Decoding once all chunks are written. */
  lemma OwnDecode(fs: Files, t: Transfer, k: nat, a: Action)
    requires WORKSPACE <= t.dest && t.data != [] && k >= t.ChunkCount()
    requires Coherent(fs, t, Writing(k))
    ensures var (fs', st') := Command(fs, t, Writing(k), a);
            Coherent(fs', t, st') && (a.fault == Works ==> st' == Done)
  {
    TmpIsNotDest(t, t);
    AllWritten(fs, t, k);
  }

  /** A command keeps its own transfer coherent. */
  lemma OwnCommand(fs: Files, t: Transfer, st: Status, a: Action)
    requires WORKSPACE <= t.dest && t.data != []
    requires Coherent(fs, t, st)
    ensures var (fs', st') := Command(fs, t, st, a);
            && Coherent(fs', t, st')
            && (a.fault == Works && st.Writing? ==> st' == if st.k < t.ChunkCount() then Writing(st.k + 1) else Done)
  {
    if st.Writing? {
      if st.k < t.ChunkCount() {
        OwnChunk(fs, t, st.k, a);
      } else {
        OwnDecode(fs, t, st.k, a);
      }
    }
  }

  ghost predicate SameAt(fs: Files, fs': Files, p: Path) {
    (p in fs <==> p in fs') && (p in fs ==> fs[p] == fs'[p])
  }

  lemma CommandTouches(fs: Files, t: Transfer, st: Status, a: Action, p: Path)
    requires p != t.Tmp() && p != t.dest
    ensures SameAt(fs, Command(fs, t, st, a).0, p)
  {
  }

  lemma CoherentFrame(fs: Files, fs': Files, u: Transfer, su: Status)
    requires Coherent(fs, u, su) && SameAt(fs, fs', u.Tmp()) && SameAt(fs, fs', u.dest)
    ensures Coherent(fs', u, su)
  {
  }

  /** A command leaves other transfers as they are. */
  lemma OtherCommand(fs: Files, t: Transfer, st: Status, a: Action, u: Transfer, su: Status)
    requires WORKSPACE <= t.dest && WORKSPACE <= u.dest && t.dest != u.dest
    requires t.BaseName() != u.BaseName()
    requires Coherent(fs, u, su)
    ensures Coherent(Command(fs, t, st, a).0, u, su)
  {
    TmpIsNotDest(t, u);
    TmpIsNotDest(u, t);
    TmpIsInjective(t, u);
    CommandTouches(fs, t, st, a, u.Tmp());
    CommandTouches(fs, t, st, a, u.dest);
    CoherentFrame(fs, Command(fs, t, st, a).0, u, su);
  }

  /** Where transfer `t` stands after `n` commands of its own, if no command fails. */
  function StatusAfter(t: Transfer, n: nat): Status {
    if n <= t.ChunkCount() then Writing(n) else Done
  }

  lemma {:induction false} RunIsCoherent(ts: seq<Transfer>, fs: Files, actions: seq<Action>, i: nat)
    requires WorkspaceFiles(ts) && DistinctBaseNames(ts) && NonEmpty(ts) && i < |ts|
    ensures var w := Run(ts, Start(ts, fs), actions);
            && Coherent(w.files, ts[i], w.status[i])
            && (FaultFree(actions) ==> w.status[i] == StatusAfter(ts[i], Commands(actions, i)))
  {
    if actions != [] {
      var init, a := actions[..|actions| - 1], actions[|actions| - 1];
      var w := Run(ts, Start(ts, fs), init);
      RunIsCoherent(ts, fs, init, i);
      if a.who == i {
        OwnCommand(w.files, ts[i], w.status[i], a);
      } else if a.who < |ts| {
        OtherCommand(w.files, ts[a.who], w.status[a.who], a, ts[i], w.status[i]);
      }
      assert FaultFree(actions) ==> FaultFree(init) && a.fault == Works;
    }
  }

  /** How many commands of transfer i went wrong, and whether a call of them raised. */
  function Faults(actions: seq<Action>, i: nat): nat {
    if actions == [] then 0
    else
      var a := actions[|actions| - 1];
      Faults(actions[..|actions| - 1], i) + (if a.who == i && a.fault != Works then 1 else 0)
  }

  predicate Raised(actions: seq<Action>, i: nat) {
    exists a :: a in actions && a.who == i && a.fault.Raises?
  }

  ghost function FaultyCommands(actions: seq<Action>, i: nat): set<nat> {
    set n: nat | n < |actions| && actions[n].who == i && actions[n].fault != Works
  }

  /** Faults are the commands of this transfer that did not work. */
  lemma {:induction false} FaultsAreCounted(actions: seq<Action>, i: nat)
    ensures Faults(actions, i) == |FaultyCommands(actions, i)|
  {
    if actions != [] {
      var m := |actions| - 1;
      FaultsAreCounted(actions[..m], i);
      var here := actions[m].who == i && actions[m].fault != Works;
      assert FaultyCommands(actions, i) == FaultyCommands(actions[..m], i) + (if here then {m} else {});
    }
  }

  /** A call that raises leaves the files as they are after the command, if it had run, or after a failed one. */
  lemma RaisedCommandIs(fs: Files, t: Transfer, st: Status, who: nat, left: Option<bytes>)
    requires !Ended(st)
    requires var decodes := st.Writing? && st.k >= t.ChunkCount(); decodes ==> CanDecode(fs, t)
    ensures Command(fs, t, st, Action(who, Raises(true), left))
         == (Command(fs, t, st, Action(who, Works, left)).0, Abandoned)
    ensures Command(fs, t, st, Action(who, Raises(false), left))
         == (Command(fs, t, st, Action(who, Exits, left)).0, Abandoned)
  {
  }

  /** A command that exits with an error leaves what it left in the file it was to write, and is cleaned up after. */
  lemma FailedCommandIs(fs: Files, t: Transfer, st: Status, who: nat, left: Option<bytes>)
    ensures var (fs', st') := Command(fs, t, st, Action(who, Exits, left));
            && (st.Writing? ==>
                  var file := if st.k < t.ChunkCount() then t.Tmp() else t.dest;
                  st' == CleaningUp && (if left.None? then fs' == fs else fs' == fs[file := left.value]))
            && (st == CleaningUp ==> st' == Abandoned && fs' == fs)
            && (Ended(st) ==> st' == st && fs' == fs)
  {
  }

  /** A decode that finds no temporary file writes nothing; one that cannot decode it may leave a part. */
  lemma UndecodableIs(fs: Files, t: Transfer, k: nat, who: nat, left: Option<bytes>)
    requires k >= t.ChunkCount() && !CanDecode(fs, t)
    ensures Command(fs, t, Writing(k), Action(who, Works, left))
         == (if t.Tmp() in fs && left.Some? then fs[t.dest := left.value] else fs, CleaningUp)
  {
  }

  /** A transfer ends without cleaning up only if a call raised or its cleanup went wrong too. */
  lemma {:induction false} AbandonedOnlyByFaults(ts: seq<Transfer>, fs: Files, actions: seq<Action>, i: nat)
    requires WorkspaceFiles(ts) && DistinctBaseNames(ts) && NonEmpty(ts) && i < |ts|
    ensures var st := Run(ts, Start(ts, fs), actions).status[i];
            && (st.CleaningUp? ==> Faults(actions, i) >= 1)
            && (st.Abandoned? ==> Raised(actions, i) || Faults(actions, i) >= 2)
  {
    if actions != [] {
      var init, a := actions[..|actions| - 1], actions[|actions| - 1];
      var w := Run(ts, Start(ts, fs), init);
      AbandonedOnlyByFaults(ts, fs, init, i);
      RunIsCoherent(ts, fs, init, i);
      assert a in actions && forall x :: x in init ==> x in actions;
      if a.who == i {
        OwnCommand(w.files, ts[i], w.status[i], a);
      }
    }
  }

  /**
   Non-interference, for any number of transfers, any interleaving of their commands, any faults and
   whatever files were there before: a finished transfer has put exactly its own bytes at its
   destination, and neither a finished nor a failed one leaves its temporary file behind.  One that
   ended without cleaning up had a call that raised, or two commands that went wrong.
   */
  lemma NonInterference(ts: seq<Transfer>, fs: Files, actions: seq<Action>, i: nat)
    requires WorkspaceFiles(ts) && DistinctBaseNames(ts) && NonEmpty(ts) && i < |ts|
    ensures var w := Run(ts, Start(ts, fs), actions);
            && (w.status[i].Done? ==> ts[i].dest in w.files && w.files[ts[i].dest] == ts[i].data)
            && (w.status[i].Done? || w.status[i].Failed? ==> ts[i].Tmp() !in w.files)
            && (w.status[i].Abandoned? ==> Raised(actions, i) || Faults(actions, i) >= 2)
  {
    RunIsCoherent(ts, fs, actions, i);
    AbandonedOnlyByFaults(ts, fs, actions, i);
  }

  // ---- the two preconditions are needed ----

  /** How many of the first k transfers have not ended. */
  function Unfinished(w: World, k: nat): nat
    requires k <= |w.status|
  {
    if k == 0 then 0 else Unfinished(w, k - 1) + (if Ended(w.status[k - 1]) then 0 else 1)
  }

  /**
   The semaphore serves transfers in their order: one that is at work has fewer than MAX_CONCURRENT
   unfinished ones before it.
   */
  predicate WithinLimit(ts: seq<Transfer>, w: World, actions: seq<Action>)
    requires |w.status| == |ts|
  {
    actions == [] ||
    (var init, who := actions[..|actions| - 1], actions[|actions| - 1].who;
     WithinLimit(ts, w, init) && (who < |ts| ==> Unfinished(Run(ts, w, init), who) < MAX_CONCURRENT))
  }

  /** No transfer ever fails on its own account or finishes with anything but its own bytes. */
  ghost predicate AllRunsDeliver(ts: seq<Transfer>) {
    forall fs: Files, actions: seq<Action>, i: nat ::
      i < |ts| && FaultFree(actions) && WithinLimit(ts, Start(ts, fs), actions) ==>
        Delivers(Run(ts, Start(ts, fs), actions), ts[i], i)
  }

  predicate Delivers(w: World, t: Transfer, i: nat)
    requires i < |w.status|
  {
    match w.status[i]
    case Writing(_) => true
    case Done => t.dest in w.files && w.files[t.dest] == t.data && t.Tmp() !in w.files
    case _ => false
  }

  function Next(i: nat): Action {
    Action(i, Works, None)
  }

  /** `n` commands of transfer i, appended to a schedule. */
  function Repeat(actions: seq<Action>, i: nat, n: nat): (r: seq<Action>)
    ensures FaultFree(actions) ==> FaultFree(r)
  {
    if n == 0 then actions else Repeat(actions, i, n - 1) + [Next(i)]
  }

  lemma RunOneMore(ts: seq<Transfer>, w: World, actions: seq<Action>, a: Action)
    requires |w.status| == |ts|
    ensures Run(ts, w, actions + [a]) == Step(ts, Run(ts, w, actions), a)
  {
    assert (actions + [a])[..|actions|] == actions;
  }

  /** The world after `n` more commands of transfer i. */
  function Alone(ts: seq<Transfer>, w: World, i: nat, n: nat): (w': World)
    requires |w.status| == |ts|
    ensures |w'.status| == |ts|
  {
    if n == 0 then w else Step(ts, Alone(ts, w, i, n - 1), Next(i))
  }

  lemma {:induction false} RepeatIsAlone(ts: seq<Transfer>, w: World, actions: seq<Action>, i: nat, n: nat)
    requires |w.status| == |ts|
    ensures Run(ts, w, Repeat(actions, i, n)) == Alone(ts, Run(ts, w, actions), i, n)
  {
    if n > 0 {
      RepeatIsAlone(ts, w, actions, i, n - 1);
      RunOneMore(ts, w, Repeat(actions, i, n - 1), Next(i));
    }
  }

  /** From `w` to `w'` only transfer i has moved: it has written its first `n` chunks. */
  ghost predicate WroteAlone(w: World, w': World, t: Transfer, i: nat, n: nat)
    requires i < |w.status|
  {
    && w'.status == w.status[i := Writing(n)]
    && w'.files == if n == 0 then w.files else w.files[t.Tmp() := t.Written(n)]
  }

  lemma OneMoreChunk(ts: seq<Transfer>, w: World, w': World, i: nat, n: nat)
    requires |w.status| == |w'.status| == |ts| && i < |ts|
    requires WroteAlone(w, w', ts[i], i, n) && n < ts[i].ChunkCount()
    ensures WroteAlone(w, Step(ts, w', Next(i)), ts[i], i, n + 1)
  {
    ChunkExtends(w'.files, ts[i], n);
  }

  lemma {:induction false} ChunksAlone(ts: seq<Transfer>, w: World, i: nat, n: nat)
    requires |w.status| == |ts| && i < |ts| && w.status[i] == Writing(0)
    requires n <= ts[i].ChunkCount()
    ensures WroteAlone(w, Alone(ts, w, i, n), ts[i], i, n)
  {
    if n > 0 {
      ChunksAlone(ts, w, i, n - 1);
      OneMoreChunk(ts, w, Alone(ts, w, i, n - 1), i, n - 1);
    }
  }

  /** A transfer that has not begun and is scheduled alone writes its text over the temporary file. */
  lemma WritesAlone(ts: seq<Transfer>, w0: World, actions: seq<Action>, i: nat, n: nat)
    requires |w0.status| == |ts| && i < |ts|
    requires Run(ts, w0, actions).status[i] == Writing(0)
    requires n <= ts[i].ChunkCount()
    ensures WroteAlone(Run(ts, w0, actions), Run(ts, w0, Repeat(actions, i, n)), ts[i], i, n)
  {
    RepeatIsAlone(ts, w0, actions, i, n);
    ChunksAlone(ts, Run(ts, w0, actions), i, n);
  }

  // ---- schedules within the limit ----

  ghost function UnfinishedBefore(w: World, k: nat): set<nat>
    requires k <= |w.status|
  {
    set j: nat | j < k && !Ended(w.status[j])
  }

  lemma {:induction false} UnfinishedAreCounted(w: World, k: nat)
    requires k <= |w.status|
    ensures Unfinished(w, k) == |UnfinishedBefore(w, k)|
  {
    if k > 0 {
      UnfinishedAreCounted(w, k - 1);
      assert UnfinishedBefore(w, k)
          == UnfinishedBefore(w, k - 1) + (if Ended(w.status[k - 1]) then {} else {k - 1});
    }
  }

  lemma {:induction false} UnfinishedDrops(w: World, w': World, k: nat)
    requires k <= |w.status| && k <= |w'.status|
    requires forall j :: 0 <= j < k && Ended(w.status[j]) ==> Ended(w'.status[j])
    ensures Unfinished(w', k) <= Unfinished(w, k)
  {
    if k > 0 {
      UnfinishedDrops(w, w', k - 1);
    }
  }

  lemma {:induction false} BegunWithinLimit(ts: seq<Transfer>, w0: World, actions: seq<Action>, i: nat)
    requires |w0.status| == |ts| && i < |ts| && WithinLimit(ts, w0, actions) && Commands(actions, i) > 0
    ensures Unfinished(Run(ts, w0, actions), i) < MAX_CONCURRENT
  {
    var init, a := actions[..|actions| - 1], actions[|actions| - 1];
    var w, w' := Run(ts, w0, init), Run(ts, w0, actions);
    UnfinishedDrops(w, w', i);
    if a.who != i {
      BegunWithinLimit(ts, w0, init, i);
    }
  }

  /** Those of the first k transfers that have begun and not ended. */
  ghost function AtWork(ts: seq<Transfer>, w0: World, actions: seq<Action>, k: nat): set<nat>
    requires |w0.status| == |ts| && k <= |ts|
  {
    set i: nat | i < k && Commands(actions, i) > 0 && !Ended(Run(ts, w0, actions).status[i])
  }

  /** Within the limit at most five transfers are at work at any time. */
  lemma {:induction false} AtMostFiveAtWork(ts: seq<Transfer>, w0: World, actions: seq<Action>, k: nat)
    requires |w0.status| == |ts| && k <= |ts| && WithinLimit(ts, w0, actions)
    ensures |AtWork(ts, w0, actions, k)| <= 5
  {
    if k > 0 {
      var below, w := AtWork(ts, w0, actions, k - 1), Run(ts, w0, actions);
      if k - 1 in AtWork(ts, w0, actions, k) {
        BegunWithinLimit(ts, w0, actions, k - 1);
        UnfinishedAreCounted(w, k - 1);
        Subset(below, UnfinishedBefore(w, k - 1));
        assert AtWork(ts, w0, actions, k) == below + {k - 1};
      } else {
        AtMostFiveAtWork(ts, w0, actions, k - 1);
        assert AtWork(ts, w0, actions, k) == below;
      }
    }
  }

  lemma {:induction false} Subset(a: set<nat>, b: set<nat>)
    requires a <= b
    ensures |a| <= |b|
    decreases |a|
  {
    if a != {} {
      var x :| x in a;
      Subset(a - {x}, b - {x});
    }
  }

  lemma {:induction false} UnfinishedAgrees(w: World, w': World, k: nat)
    requires k <= |w.status| && k <= |w'.status|
    requires forall j :: 0 <= j < k ==> w.status[j] == w'.status[j]
    ensures Unfinished(w, k) == Unfinished(w', k)
  {
    if k > 0 {
      UnfinishedAgrees(w, w', k - 1);
    }
  }

  /** All transfers before k have ended, but perhaps one. */
  ghost predicate AtMostOneBefore(w: World, k: nat, one: nat)
    requires k <= |w.status|
  {
    forall j :: 0 <= j < k && j != one ==> Ended(w.status[j])
  }

  lemma {:induction false} UnfinishedIsOne(w: World, k: nat, one: nat)
    requires k <= |w.status| && AtMostOneBefore(w, k, one)
    ensures Unfinished(w, k) <= (if one < k then 1 else 0)
  {
    if k > 0 {
      UnfinishedIsOne(w, k - 1, one);
    }
  }

  lemma OneMoreWithin(ts: seq<Transfer>, w: World, actions: seq<Action>, i: nat, one: nat)
    requires |w.status| == |ts| && i < |ts| && WithinLimit(ts, w, actions)
    requires AtMostOneBefore(Run(ts, w, actions), i, one)
    ensures WithinLimit(ts, w, actions + [Next(i)])
  {
    UnfinishedIsOne(Run(ts, w, actions), i, one);
    assert (actions + [Next(i)])[..|actions|] == actions;
  }

  lemma {:induction false} AloneKeepsOthers(ts: seq<Transfer>, w: World, i: nat, n: nat)
    requires |w.status| == |ts|
    ensures forall j :: 0 <= j < |ts| && j != i ==> Alone(ts, w, i, n).status[j] == w.status[j]
  {
    if n > 0 {
      AloneKeepsOthers(ts, w, i, n - 1);
    }
  }

  lemma RepeatKeepsBefore(ts: seq<Transfer>, w: World, actions: seq<Action>, i: nat, n: nat, one: nat)
    requires |w.status| == |ts| && i < |ts| && AtMostOneBefore(Run(ts, w, actions), i, one)
    ensures AtMostOneBefore(Run(ts, w, Repeat(actions, i, n)), i, one)
  {
    RepeatIsAlone(ts, w, actions, i, n);
    AloneKeepsOthers(ts, Run(ts, w, actions), i, n);
  }

  lemma {:induction false} RepeatWithin(ts: seq<Transfer>, w: World, actions: seq<Action>, i: nat, n: nat, one: nat)
    requires |w.status| == |ts| && i < |ts| && WithinLimit(ts, w, actions)
    requires AtMostOneBefore(Run(ts, w, actions), i, one)
    ensures WithinLimit(ts, w, Repeat(actions, i, n))
  {
    if n > 0 {
      RepeatWithin(ts, w, actions, i, n - 1, one);
      RepeatKeepsBefore(ts, w, actions, i, n - 1, one);
      OneMoreWithin(ts, w, Repeat(actions, i, n - 1), i, one);
    }
  }

  ghost predicate NoTemporaryFiles(fs: Files, ts: seq<Transfer>) {
    forall t :: t in ts ==> t.Tmp() !in fs
  }

  /** A nonempty file that is transferred alone is done and leaves no temporary file. */
  lemma CompletesAlone(ts: seq<Transfer>, w0: World, actions: seq<Action>, i: nat)
    requires |w0.status| == |ts| && i < |ts| && ts[i].data != [] && WORKSPACE <= ts[i].dest
    requires Run(ts, w0, actions).status[i] == Writing(0) && NoTemporaryFiles(Run(ts, w0, actions).files, ts)
    ensures var w' := Run(ts, w0, Repeat(actions, i, ts[i].ChunkCount() + 1));
            w'.status == Run(ts, w0, actions).status[i := Done] && NoTemporaryFiles(w'.files, ts)
  {
    var t, n := ts[i], ts[i].ChunkCount();
    var w, w1 := Run(ts, w0, actions), Run(ts, w0, Repeat(actions, i, n));
    WritesAlone(ts, w0, actions, i, n);
    RunOneMore(ts, w0, Repeat(actions, i, n), Next(i));
    Base64.EncodedTextIsShellSafe(t.data);
    ChunksCoverText(t, 0);
    DecodesShared(w1, ts, i, i);
    forall u | u in ts ensures u.Tmp() !in Step(ts, w1, Next(i)).files {
      TmpIsNotDest(u, t);
    }
  }

  /** The first k transfers but perhaps one are done one after the other, and nobody else has begun. */
  ghost predicate DoneBut(w: World, k: nat, one: nat) {
    && (forall j :: 0 <= j < |w.status| && j < k && j != one ==> w.status[j] == Done)
    && (forall j :: 0 <= j < |w.status| && (j >= k || j == one) ==> w.status[j] == Writing(0))
  }

  /** A schedule within the limit that has done so, without faults and without leaving a temporary file. */
  ghost predicate DoneSchedule(ts: seq<Transfer>, actions: seq<Action>, k: nat, one: nat) {
    var w := Run(ts, Start(ts, map[]), actions);
    && DoneBut(w, k, one) && NoTemporaryFiles(w.files, ts)
    && FaultFree(actions) && WithinLimit(ts, Start(ts, map[]), actions)
  }

  lemma NothingDone(ts: seq<Transfer>, one: nat)
    ensures DoneSchedule(ts, [], 0, one)
  {
  }

  /** The next transfer is done alone. */
  lemma DoneNext(ts: seq<Transfer>, before: seq<Action>, k: nat, one: nat)
    requires WorkspaceFiles(ts) && k < |ts| && k != one && ts[k].data != []
    requires DoneSchedule(ts, before, k, one)
    ensures DoneSchedule(ts, Repeat(before, k, ts[k].ChunkCount() + 1), k + 1, one)
  {
    CompletesAlone(ts, Start(ts, map[]), before, k);
    RepeatWithin(ts, Start(ts, map[]), before, k, ts[k].ChunkCount() + 1, one);
  }

  lemma OneIsSkipped(ts: seq<Transfer>, before: seq<Action>, one: nat)
    requires DoneSchedule(ts, before, one, one)
    ensures DoneSchedule(ts, before, one + 1, one)
  {
  }

  lemma {:induction false} DoneOneByOne(ts: seq<Transfer>, k: nat, one: nat) returns (actions: seq<Action>)
    requires k <= |ts| && WorkspaceFiles(ts) && forall j :: 0 <= j < k ==> ts[j].data != []
    ensures DoneSchedule(ts, actions, k, one)
  {
    if k == 0 {
      NothingDone(ts, one);
      return [];
    }
    var before := DoneOneByOne(ts, k - 1, one);
    if k - 1 == one {
      OneIsSkipped(ts, before, one);
      return before;
    }
    DoneNext(ts, before, k - 1, one);
    return Repeat(before, k - 1, ts[k - 1].ChunkCount() + 1);
  }

  /** An empty file writes no chunk, so the decode command finds no temporary file. */
  lemma EmptyDataFails(ts: seq<Transfer>, i: nat)
    requires WorkspaceFiles(ts) && i < |ts| && ts[i].data == []
    requires forall j :: 0 <= j < i ==> ts[j].data != []
    ensures !AllRunsDeliver(ts)
  {
    var w0 := Start(ts, map[]);
    var before := DoneOneByOne(ts, i, i);
    OneMoreWithin(ts, w0, before, i, i);
    RunOneMore(ts, w0, before, Next(i));
    var w := Run(ts, w0, before + [Next(i)]);
    assert ts[i] in ts && ts[i].ChunkCount() == 0;
    assert w.status[i] == CleaningUp;
    assert FaultFree(before + [Next(i)]) && !Delivers(w, ts[i], i);
  }

  /** After one transfer, another one writes its text. */
  lemma WritesNext(ts: seq<Transfer>, w0: World, actions: seq<Action>, i: nat, one: nat)
    requires |w0.status| == |ts| && i < |ts| && Run(ts, w0, actions).status[i] == Writing(0)
    requires AtMostOneBefore(Run(ts, w0, actions), i, one) && WithinLimit(ts, w0, actions)
    ensures var n := ts[i].ChunkCount();
            var w' := Run(ts, w0, Repeat(actions, i, n));
            && w'.status == Run(ts, w0, actions).status[i := Writing(n)]
            && (ts[i].data != [] ==> ts[i].Tmp() in w'.files && w'.files[ts[i].Tmp()] == ts[i].Text())
            && WithinLimit(ts, w0, Repeat(actions, i, n))
  {
    WritesAlone(ts, w0, actions, i, ts[i].ChunkCount());
    RepeatWithin(ts, w0, actions, i, ts[i].ChunkCount(), one);
    ChunksCoverText(ts[i], 0);
    if ts[i].data != [] {
      Base64.EncodedTextIsShellSafe(ts[i].data);
    }
  }

  /** Transfers i and j write their texts one after the other; the shared file then holds that of j. */
  lemma BothWrite(ts: seq<Transfer>, i: nat, j: nat) returns (actions: seq<Action>)
    requires WorkspaceFiles(ts) && NonEmpty(ts) && i < j < |ts|
    ensures var w := Run(ts, Start(ts, map[]), actions);
            && w.status[i] == Writing(ts[i].ChunkCount()) && w.status[j] == Writing(ts[j].ChunkCount())
            && ts[j].Tmp() in w.files && w.files[ts[j].Tmp()] == ts[j].Text()
            && AtMostOneBefore(w, j, i)
    ensures FaultFree(actions) && WithinLimit(ts, Start(ts, map[]), actions)
  {
    var w0 := Start(ts, map[]);
    var before := DoneOneByOne(ts, j, i);
    var first := Repeat(before, i, ts[i].ChunkCount());
    WritesNext(ts, w0, before, i, i);
    WritesNext(ts, w0, first, j, i);
    actions := Repeat(first, j, ts[j].ChunkCount());
  }

  /** A transfer that decodes text of another one is done, and the file is gone. */
  lemma DecodesShared(w: World, ts: seq<Transfer>, i: nat, j: nat)
    requires |w.status| == |ts| && i < |ts| && j < |ts|
    requires ts[i].Tmp() == ts[j].Tmp() && ts[j].Tmp() in w.files && w.files[ts[j].Tmp()] == ts[j].Text()
    requires w.status[i] == Writing(ts[i].ChunkCount())
    ensures var w' := Step(ts, w, Next(i)); w'.status == w.status[i := Done] && ts[j].Tmp() !in w'.files
  {
    Base64.DecodeEncode(ts[j].data);
  }

  /** Then the other one finds no text to decode. */
  lemma SecondDecodeFails(w: World, ts: seq<Transfer>, i: nat, j: nat)
    requires |w.status| == |ts| && i < |ts| && j < |ts| && i != j
    requires ts[i].Tmp() == ts[j].Tmp() && ts[j].Tmp() in w.files && w.files[ts[j].Tmp()] == ts[j].Text()
    requires w.status[i] == Writing(ts[i].ChunkCount()) && w.status[j] == Writing(ts[j].ChunkCount())
    ensures Step(ts, Step(ts, w, Next(i)), Next(j)).status[j] == CleaningUp
  {
    DecodesShared(w, ts, i, j);
  }

  lemma TwoMoreWithin(ts: seq<Transfer>, w0: World, actions: seq<Action>, i: nat, j: nat)
    requires |w0.status| == |ts| && i < j < |ts| && WithinLimit(ts, w0, actions) && FaultFree(actions)
    requires AtMostOneBefore(Run(ts, w0, actions), j, i)
    ensures var more := (actions + [Next(i)]) + [Next(j)];
            && WithinLimit(ts, w0, more) && FaultFree(more)
            && Run(ts, w0, more) == Step(ts, Step(ts, Run(ts, w0, actions), Next(i)), Next(j))
  {
    RunOneMore(ts, w0, actions, Next(i));
    RunOneMore(ts, w0, actions + [Next(i)], Next(j));
    OneMoreWithin(ts, w0, actions, i, i);
    OneMoreWithin(ts, w0, actions + [Next(i)], j, i);
  }

  /**
   Two files with one base name share the temporary file: after both have written their text, the
   first to decode takes the other's bytes and removes the file, and the second fails.
   */
  lemma SharedBaseNameFails(ts: seq<Transfer>, i: nat, j: nat)
    requires WorkspaceFiles(ts) && NonEmpty(ts)
    requires i < j < |ts| && ts[i].BaseName() == ts[j].BaseName()
    ensures !AllRunsDeliver(ts)
  {
    var w0 := Start(ts, map[]);
    var both := BothWrite(ts, i, j);
    SecondDecodeFails(Run(ts, w0, both), ts, i, j);
    TwoMoreWithin(ts, w0, both, i, j);
    var w := Run(ts, w0, (both + [Next(i)]) + [Next(j)]);
    assert !Delivers(w, ts[j], j);
  }

  lemma {:induction false} FirstEmpty(ts: seq<Transfer>, n: nat) returns (i: nat)
    requires n <= |ts| && exists j :: 0 <= j < n && ts[j].data == []
    ensures i < |ts| && ts[i].data == [] && forall j :: 0 <= j < i ==> ts[j].data != []
  {
    i := n - 1;
    if exists j :: 0 <= j < n - 1 && ts[j].data == [] {
      i := FirstEmpty(ts, n - 1);
    }
  }

  /**
   Concurrent transfers of distinct workspace files, with at most MAX_CONCURRENT at a time, deliver in
   every fault-free run, whatever was in the container before, exactly when their base names are pairwise
   distinct and no file is empty.
   */
  lemma DeliveryCondition(ts: seq<Transfer>)
    requires WorkspaceFiles(ts)
    ensures AllRunsDeliver(ts) <==> DistinctBaseNames(ts) && NonEmpty(ts)
  {
    if !NonEmpty(ts) {
      var i := FirstEmpty(ts, |ts|);
      EmptyDataFails(ts, i);
    } else if !DistinctBaseNames(ts) {
      var i, j :| 0 <= i < j < |ts| && ts[i].BaseName() == ts[j].BaseName();
      SharedBaseNameFails(ts, i, j);
    } else {
      forall fs: Files, actions: seq<Action>, i: nat | i < |ts| && FaultFree(actions)
        ensures Delivers(Run(ts, Start(ts, fs), actions), ts[i], i)
      {
        RunIsCoherent(ts, fs, actions, i);
      }
    }
  }

  // ---- the code of one transfer ----

  datatype Exit = Zero | NonZero | Exception

  function ExitOf(fault: Fault): Exit {
    match fault
    case Works => Zero
    case Exits => NonZero
    case Raises(_) => Exception
  }

  /** The file system of a container, with the three commands that `_write_to_container` executes. */
  class Container {
    var files: Files

    constructor (fs: Files)
      ensures files == fs
    {
      files := fs;
    }

    method Printf(t: Transfer, k: nat, a: Action) returns (exit: Exit)
      modifies this
      ensures files == ChunkCommand(old(files), t, k, a).0
      ensures exit == ExitOf(a.fault)
    {
      if a.fault == Works || a.fault == Raises(true) {
        var before := if k > 0 && t.Tmp() in files then files[t.Tmp()] else [];
        files := files[t.Tmp() := before + t.Chunk(k)];
      } else if a.left.Some? {
        files := files[t.Tmp() := a.left.value];
      }
      return ExitOf(a.fault);
    }

    method DecodeAndRemove(t: Transfer, a: Action) returns (exit: Exit)
      modifies this
      ensures files == DecodeCommand(old(files), t, a).0
      ensures exit == if a.fault == Works && !old(CanDecode(files, t)) then NonZero else ExitOf(a.fault)
    {
      var decoded := if t.Tmp() in files then Base64.Decode(files[t.Tmp()]) else None;
      if decoded.Some? && (a.fault == Works || a.fault == Raises(true)) {
        files := files[t.dest := decoded.value] - {t.Tmp()};
      } else if a.left.Some? && (a.fault != Works || t.Tmp() in files) {
        files := files[t.dest := a.left.value];
      }
      return if a.fault == Works && decoded.None? then NonZero else ExitOf(a.fault);
    }

    method Remove(t: Transfer, a: Action) returns (exit: Exit)
      modifies this
      ensures files == RemoveCommand(old(files), t, a).0
      ensures exit == ExitOf(a.fault)
    {
      if a.fault == Works || a.fault == Raises(true) {
        files := files - {t.Tmp()};
      }
      return ExitOf(a.fault);
    }
  }

  /** The commands of one transfer on its own, from state `st` to its end. */
  function Finish(fs: Files, t: Transfer, st: Status, commands: nat -> Action, n: nat): (Files, Status)
    requires st.Writing? ==> st.k <= t.ChunkCount()
    decreases if st.Writing? then 2 + t.ChunkCount() - st.k else if st.CleaningUp? then 1 else 0
  {
    if Ended(st) then (fs, st)
    else
      var (fs', st') := Command(fs, t, st, commands(n));
      Finish(fs', t, st', commands, n + 1)
  }

  lemma CleanUpEnds(fs: Files, t: Transfer, commands: nat -> Action, n: nat)
    ensures Finish(fs, t, CleaningUp, commands, n) == RemoveCommand(fs, t, commands(n))
    ensures Ended(RemoveCommand(fs, t, commands(n)).1)
  {
  }

  lemma ChunkThenFinish(fs: Files, t: Transfer, commands: nat -> Action, k: nat)
    requires k < t.ChunkCount() && commands(k).fault == Works
    ensures Finish(fs, t, Writing(k), commands, k) == Finish(WriteChunk(fs, t, k), t, Writing(k + 1), commands, k + 1)
  {
  }

  lemma DeliveredAlone(before: Files, t: Transfer)
    requires WORKSPACE <= t.dest
    ensures var fs := before[t.Tmp() := t.Text()];
            CanDecode(fs, t) && DecodeToDest(fs, t) == before[t.dest := t.data] - {t.Tmp()}
    ensures t.ChunkCount() == 0 <==> t.data == []
  {
    TmpIsNotDest(t, t);
    Base64.EncodedTextIsShellSafe(t.data);
    Base64.DecodeEncode(t.data);
  }

  /**
   `_write_to_container` running alone, with any faults: it ends as its commands one after the other
   end, and raises unless that end is `Done`.
   */
  method WriteToContainer(c: Container, t: Transfer, commands: nat -> Action) returns (end: Status)
    modifies c
    ensures (c.files, end) == Finish(old(c.files), t, Writing(0), commands, 0)
    ensures Ended(end)
  {
    var i := 0;
    while i < t.ChunkCount()
      invariant i <= t.ChunkCount()
      invariant Finish(c.files, t, Writing(i), commands, i) == Finish(old(c.files), t, Writing(0), commands, 0)
    {
      var exit := c.Printf(t, i, commands(i));
      if exit == Exception {
        return Abandoned;
      }
      if exit == NonZero {
        CleanUpEnds(c.files, t, commands, i + 1);
        exit := c.Remove(t, commands(i + 1));
        return if exit == Zero then Failed else Abandoned;
      }
      i := i + 1;
    }
    var exit := c.DecodeAndRemove(t, commands(i));
    if exit == Exception {
      return Abandoned;
    }
    if exit == NonZero {
      CleanUpEnds(c.files, t, commands, i + 1);
      exit := c.Remove(t, commands(i + 1));
      return if exit == Zero then Failed else Abandoned;
    }
    return Done;
  }

  /** The files once the first n chunks are written. */
  function WithChunks(fs: Files, t: Transfer, n: nat): Files {
    if n == 0 then fs else fs[t.Tmp() := t.Written(n)]
  }

  lemma NextChunk(fs: Files, t: Transfer, n: nat)
    ensures WriteChunk(WithChunks(fs, t, n), t, n) == WithChunks(fs, t, n + 1)
  {
    ChunkExtends(WithChunks(fs, t, n), t, n);
  }

  /** The end of a transfer as seen after its first k chunks. */
  function EndAfter(fs: Files, t: Transfer, commands: nat -> Action, k: nat): (Files, Status) {
    if k <= t.ChunkCount() then Finish(WithChunks(fs, t, k), t, Writing(k), commands, k) else (fs, Done)
  }

  lemma EndAfterNext(fs: Files, t: Transfer, commands: nat -> Action, k: nat)
    requires k < t.ChunkCount() && commands(k).fault == Works
    ensures EndAfter(fs, t, commands, k) == EndAfter(fs, t, commands, k + 1)
  {
    ChunkThenFinish(WithChunks(fs, t, k), t, commands, k);
    NextChunk(fs, t, k);
  }

  lemma {:induction false} ChunksWithoutFaults(fs: Files, t: Transfer, commands: nat -> Action, n: nat)
    requires n <= t.ChunkCount() && (forall k :: commands(k).fault == Works)
    ensures EndAfter(fs, t, commands, 0) == EndAfter(fs, t, commands, n)
  {
    if n > 0 {
      ChunksWithoutFaults(fs, t, commands, n - 1);
      EndAfterNext(fs, t, commands, n - 1);
    }
  }

  /**
   Without faults a nonempty file arrives, the temporary file is gone and nothing else has changed; an
   empty file is replaced by what a stale temporary file decodes to, or the transfer fails.
   */
  lemma AloneWithoutFaults(fs: Files, t: Transfer, commands: nat -> Action)
    requires WORKSPACE <= t.dest && (forall k :: commands(k).fault == Works)
    ensures var (fs', end) := Finish(fs, t, Writing(0), commands, 0);
            && (t.data != [] ==> end == Done && fs' == fs[t.dest := t.data] - {t.Tmp()})
            && (t.data == [] ==> end == if CanDecode(fs, t) then Done else Failed)
            && (t.data == [] && CanDecode(fs, t) ==> fs' == DecodeToDest(fs, t))
            && t.Tmp() !in fs'
  {
    var n := t.ChunkCount();
    ChunksWithoutFaults(fs, t, commands, n);
    ChunksCoverText(t, n);
    DeliveredAlone(fs, t);
    TmpIsNotDest(t, t);
    var written := if n == 0 then fs else fs[t.Tmp() := t.Text()];
    if CanDecode(written, t) {
      assert Finish(written, t, Writing(n), commands, n) == (DecodeToDest(written, t), Done);
    } else {
      var left := DecodeCommand(written, t, commands(n)).0;
      assert Finish(written, t, Writing(n), commands, n) == Finish(left, t, CleaningUp, commands, n + 1);
      assert Finish(left, t, CleaningUp, commands, n + 1) == (left - {t.Tmp()}, Failed);
    }
  }
}
