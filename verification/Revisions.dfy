/** Conditional writes: load, If-Match check and compare-and-swap save, interleaved between requests. */
module Revisions {
  import opened Wrappers
  import opened Text
  import opened IfMatch
  import Decimal

  datatype Row = Row(revision: nat, content: string, deleted: bool)

  type Rows = map<nat, Row>

  /** `ErrRevisionConflict`: gone, or still there and moved past the expected revision. */
  datatype Conflict = Conflict(id: nat, expected: nat, deleted: bool)

  datatype Status = Done | NotFound | PreconditionFailed

  predicate Live(rows: Rows, id: nat) {
    id in rows && !rows[id].deleted
  }

  predicate CasHolds(rows: Rows, id: nat, expected: nat) {
    Live(rows, id) && rows[id].revision == expected
  }

  /** What a save leaves behind: the new content under the next revision, or nothing at all. */
  function Saved(rows: Rows, id: nat, expected: nat, content: string): Rows {
    if CasHolds(rows, id, expected) then rows[id := Row(expected + 1, content, false)] else rows
  }

  function SoftDeleted(rows: Rows, id: nat): Rows {
    if Live(rows, id) then rows[id := rows[id].(deleted := true)] else rows
  }

  /** `handleRevisionConflict`. */
  function StatusOf(r: Result<nat, Conflict>): Status {
    match r
    case Ok(_) => Done
    case Err(conflict) => if conflict.deleted then NotFound else PreconditionFailed
  }

  /** 404 for a row that is gone, 412 for one that has moved on. */
  lemma StatusOfConflict(c: Conflict, revision: nat)
    ensures StatusOf(Ok(revision)) == Done
    ensures StatusOf(Err(c)) == if c.deleted then NotFound else PreconditionFailed
  {
  }

  function SaveStatus(rows: Rows, id: nat, expected: nat): Status {
    if CasHolds(rows, id, expected) then Done else if Live(rows, id) then PreconditionFailed else NotFound
  }

  // The machine: any number of requests, each loading and later finishing

  datatype Kind = Update(content: string) | Delete

  /** A request between its If-Match check and its write; `read` is the place of what it loaded in the history. */
  datatype Pending = Pending(id: nat, revision: nat, header: string, kind: Kind, read: nat)

  /** A save that went through: the revision it was based on, its request's header, what it wrote and where. */
  datatype Commit = Commit(id: nat, base: nat, header: string, content: string, read: nat, at: nat)

  /** `history` holds what has been written to each row, in order. */
  datatype World = World(rows: Rows, pending: map<nat, Pending>, commits: seq<Commit>, history: map<nat, seq<string>>)

  /**
   * A rewrite is a statement over many rows that changes columns and not the revision, as when a merge gives
   * the notes of one contact to another.
   */
  datatype Step =
    | Create(id: nat, content: string)
    | Load(request: nat, id: nat, header: string, kind: Kind)
    | Finish(request: nat)
    | Rewrite(id: nat, content: string)

  function HistoryOf(history: map<nat, seq<string>>, id: nat): seq<string> {
    if id in history then history[id] else []
  }

  function Recorded(history: map<nat, seq<string>>, id: nat, content: string): map<nat, seq<string>> {
    history[id := HistoryOf(history, id) + [content]]
  }

  function Finished(w: World, request: nat): World
    requires request in w.pending
  {
    var p := w.pending[request];
    var pending := map r | r in w.pending && r != request :: w.pending[r];
    match p.kind
    case Update(content) =>
      if CasHolds(w.rows, p.id, p.revision) then
        var c := Commit(p.id, p.revision, p.header, content, p.read, |HistoryOf(w.history, p.id)|);
        World(Saved(w.rows, p.id, p.revision, content), pending, w.commits + [c],
              Recorded(w.history, p.id, content))
      else w.(pending := pending)
    case Delete => w.(rows := SoftDeleted(w.rows, p.id), pending := pending)
  }

  function Next(w: World, step: Step): World {
    match step
    case Create(id, content) =>
      if id in w.rows then w
      else w.(rows := w.rows[id := Row(1, content, false)], history := w.history[id := [content]])
    case Load(request, id, header, kind) =>
      if request !in w.pending && Live(w.rows, id) && Satisfied(header, w.rows[id].revision) then
        var written := |HistoryOf(w.history, id)|;
        var read := if written == 0 then 0 else written - 1;
        w.(pending := w.pending[request := Pending(id, w.rows[id].revision, header, kind, read)])
      else w
    case Finish(request) => if request in w.pending then Finished(w, request) else w
    case Rewrite(id, content) =>
      if Live(w.rows, id) then
        w.(rows := w.rows[id := w.rows[id].(content := content)], history := Recorded(w.history, id, content))
      else w
  }

  function Run(w: World, steps: seq<Step>): World
    decreases |steps|
  {
    if steps == [] then w else Run(Next(w, steps[0]), steps[1..])
  }

  const START := World(map[], map[], [], map[])

  /** The saves that went through on one row, in order. */
  function CommitsOf(commits: seq<Commit>, id: nat): seq<Commit> {
    if commits == [] then []
    else
      var before := CommitsOf(commits[..|commits| - 1], id);
      var last := commits[|commits| - 1];
      if last.id == id then before + [last] else before
  }

  /** Where the last save of a row is in its history; its creation if there was none. */
  function LastSave(mine: seq<Commit>): nat {
    if mine == [] then 0 else mine[|mine| - 1].at
  }

  /**
   * The k-th save of a row is based on revision k + 1, its precondition allowed that revision, and its request
   * read what the save before it wrote, or something later.
   */
  ghost predicate InChain(mine: seq<Commit>) {
    forall k :: 0 <= k < |mine| ==>
      && mine[k].base == k + 1 && Satisfied(mine[k].header, mine[k].base)
      && LastSave(mine[..k]) <= mine[k].read < mine[k].at
  }

  ghost predicate RowInv(w: World, id: nat) {
    var mine, history := CommitsOf(w.commits, id), HistoryOf(w.history, id);
    && InChain(mine)
    && (forall c :: c in mine ==> c.at < |history| && history[c.at] == c.content)
    && if id in w.rows then
         w.rows[id].revision == |mine| + 1 && history != [] && w.rows[id].content == history[|history| - 1]
       else mine == []
  }

  ghost predicate PendingInv(w: World, request: nat)
    requires request in w.pending
  {
    var p := w.pending[request];
    && p.id in w.rows && 1 <= p.revision <= w.rows[p.id].revision && Satisfied(p.header, p.revision)
    && p.read < |HistoryOf(w.history, p.id)|
    && (p.revision == w.rows[p.id].revision ==> LastSave(CommitsOf(w.commits, p.id)) <= p.read)
  }

  ghost predicate Inv(w: World) {
    (forall id :: RowInv(w, id)) && (forall r :: r in w.pending ==> PendingInv(w, r))
  }

  lemma OneMoreCommit(commits: seq<Commit>, c: Commit, id: nat)
    ensures CommitsOf(commits + [c], id) == if c.id == id then CommitsOf(commits, id) + [c] else CommitsOf(commits, id)
  {
    assert (commits + [c])[..|commits|] == commits;
  }

  lemma LongerChain(mine: seq<Commit>, c: Commit)
    requires InChain(mine) && c.base == |mine| + 1 && Satisfied(c.header, c.base)
    requires LastSave(mine) <= c.read < c.at
    ensures InChain(mine + [c]) && LastSave(mine + [c]) == c.at
  {
    hide Satisfied;
    forall k | 0 <= k < |mine| + 1
      ensures LastSave((mine + [c])[..k]) == LastSave(if k == |mine| then mine else mine[..k])
    {
      assert (mine + [c])[..k] == if k == |mine| then mine else mine[..k];
    }
  }

  lemma UpdateKeepsInv(w: World, request: nat)
    requires Inv(w) && request in w.pending && w.pending[request].kind.Update?
    ensures Inv(Finished(w, request))
  {
    hide Satisfied, CommitsOf, InChain, LastSave;
    var p, w' := w.pending[request], Finished(w, request);
    if CasHolds(w.rows, p.id, p.revision) {
      var c := w'.commits[|w.commits|];
      assert w'.commits == w.commits + [c];
      assert PendingInv(w, request);
      forall id ensures RowInv(w', id) {
        assert RowInv(w, id);
        OneMoreCommit(w.commits, c, id);
        if id == p.id {
          LongerChain(CommitsOf(w.commits, id), c);
        }
      }
      forall r | r in w'.pending ensures PendingInv(w', r) {
        assert PendingInv(w, r);
        OneMoreCommit(w.commits, c, w.pending[r].id);
      }
    } else {
      HistoryIsThere(w);
      SameRowsKeepInv(w, w');
    }
  }

  /** Steps that save nothing: the history of a row may grow, and its content is the end of it. */
  lemma SameRowsKeepInv(w: World, w': World)
    requires Inv(w)
    requires w'.commits == w.commits && w'.rows.Keys == w.rows.Keys
    requires forall id :: HistoryOf(w.history, id) <= HistoryOf(w'.history, id)
    requires forall id :: id in w.rows ==>
                            var history := HistoryOf(w'.history, id);
                            && w'.rows[id].revision == w.rows[id].revision
                            && history != [] && w'.rows[id].content == history[|history| - 1]
    requires forall r :: r in w'.pending ==> r in w.pending && w'.pending[r] == w.pending[r]
    ensures Inv(w')
  {
    hide Satisfied, CommitsOf, InChain, LastSave;
    forall id ensures RowInv(w', id) {
      assert RowInv(w, id);
    }
    forall r | r in w'.pending ensures PendingInv(w', r) {
      assert PendingInv(w, r);
    }
  }

  lemma HistoryIsThere(w: World)
    requires Inv(w)
    ensures forall id :: id in w.rows ==>
                           var history := HistoryOf(w.history, id);
                           history != [] && w.rows[id].content == history[|history| - 1]
  {
    hide Satisfied, CommitsOf, InChain;
    forall id | id in w.rows
      ensures var history := HistoryOf(w.history, id);
              history != [] && w.rows[id].content == history[|history| - 1]
    {
      assert RowInv(w, id);
    }
  }

  lemma CreateKeepsInv(w: World, id: nat, content: string)
    requires Inv(w)
    ensures Inv(Next(w, Create(id, content)))
  {
    hide Satisfied, CommitsOf, InChain, LastSave;
    var w' := Next(w, Create(id, content));
    forall i ensures RowInv(w', i) {
      assert RowInv(w, i);
    }
    forall r | r in w'.pending ensures PendingInv(w', r) {
      assert PendingInv(w, r);
    }
  }

  lemma LoadKeepsInv(w: World, request: nat, id: nat, header: string, kind: Kind)
    requires Inv(w)
    ensures Inv(Next(w, Load(request, id, header, kind)))
  {
    hide Satisfied, CommitsOf, InChain;
    var w' := Next(w, Load(request, id, header, kind));
    forall i ensures RowInv(w', i) {
      assert RowInv(w, i);
    }
    forall r | r in w'.pending ensures PendingInv(w', r) {
      if r in w.pending {
        assert PendingInv(w, r);
      } else {
        assert RowInv(w, id);
        var mine := CommitsOf(w.commits, id);
        assert mine != [] ==> mine[|mine| - 1] in mine;
      }
    }
  }

  lemma StepKeepsInv(w: World, step: Step)
    requires Inv(w)
    ensures Inv(Next(w, step))
  {
    hide Satisfied, CommitsOf, Inv;
    match step
    case Create(id, content) => CreateKeepsInv(w, id, content);
    case Load(request, id, header, kind) => LoadKeepsInv(w, request, id, header, kind);
    case Rewrite(id, content) =>
      HistoryIsThere(w);
      SameRowsKeepInv(w, Next(w, step));
    case Finish(request) =>
      if request in w.pending {
        if w.pending[request].kind.Update? {
          UpdateKeepsInv(w, request);
        } else {
          HistoryIsThere(w);
          SameRowsKeepInv(w, Next(w, step));
        }
      }
  }

  lemma {:induction false} RunKeepsInv(w: World, steps: seq<Step>)
    requires Inv(w)
    ensures Inv(Run(w, steps))
    decreases |steps|
  {
    hide Inv, Next;
    if steps != [] {
      StepKeepsInv(w, steps[0]);
      RunKeepsInv(Next(w, steps[0]), steps[1..]);
    }
  }

  lemma StartInv()
    ensures Inv(START)
  {
  }

  /**
   * No lost update: in any interleaving the saves of a row form one chain. Each is based on the revision its
   * predecessor made, its If-Match allowed exactly that revision, and its request had read what its
   * predecessor wrote or something later. The row holds what was written last.
   */
  lemma NoLostUpdate(steps: seq<Step>, id: nat)
    ensures var w := Run(START, steps);
            var mine, history := CommitsOf(w.commits, id), HistoryOf(w.history, id);
            && (forall k :: 0 <= k < |mine| ==>
                  && mine[k].base == k + 1 && Satisfied(mine[k].header, mine[k].base)
                  && mine[k].read < mine[k].at < |history| && history[mine[k].at] == mine[k].content
                  && (k > 0 ==> mine[k - 1].at <= mine[k].read))
            && (id in w.rows ==>
                  && w.rows[id].revision == |mine| + 1
                  && history != [] && w.rows[id].content == history[|history| - 1])
  {
    hide Run, CommitsOf, Satisfied, InChain;
    StartInv();
    RunKeepsInv(START, steps);
    var w := Run(START, steps);
    assert RowInv(w, id);
    var mine, history := CommitsOf(w.commits, id), HistoryOf(w.history, id);
    forall k | 0 <= k < |mine|
      ensures && mine[k].base == k + 1 && Satisfied(mine[k].header, mine[k].base)
              && mine[k].read < mine[k].at < |history| && history[mine[k].at] == mine[k].content
              && (k > 0 ==> mine[k - 1].at <= mine[k].read)
    {
      assert mine[k] in mine;
      InChainAt(mine, k);
    }
  }

  lemma InChainAt(mine: seq<Commit>, k: nat)
    requires InChain(mine) && k < |mine|
    ensures mine[k].base == k + 1 && Satisfied(mine[k].header, mine[k].base) && mine[k].read < mine[k].at
    ensures k > 0 ==> mine[k - 1].at <= mine[k].read
  {
    hide Satisfied;
    if k > 0 {
      assert mine[..k][|mine[..k]| - 1] == mine[k - 1];
    }
  }

  // Without rewrites

  ghost predicate NoRewrite(steps: seq<Step>) {
    forall step :: step in steps ==> !step.Rewrite?
  }

  /** The history of a row is its creation and its saves. */
  ghost predicate SavesOnly(w: World) {
    forall id :: id in w.rows ==> |HistoryOf(w.history, id)| == |CommitsOf(w.commits, id)| + 1
  }

  lemma StepSavesOnly(w: World, step: Step)
    requires Inv(w) && SavesOnly(w) && !step.Rewrite?
    ensures SavesOnly(Next(w, step))
  {
    hide Satisfied, CommitsOf, InChain;
    var w' := Next(w, step);
    forall id | id in w'.rows ensures |HistoryOf(w'.history, id)| == |CommitsOf(w'.commits, id)| + 1 {
      assert RowInv(w, id);
      if w'.commits != w.commits {
        OneMoreCommit(w.commits, w'.commits[|w.commits|], id);
      }
    }
  }

  lemma {:induction false} RunSavesOnly(w: World, steps: seq<Step>)
    requires Inv(w) && SavesOnly(w) && NoRewrite(steps)
    ensures SavesOnly(Run(w, steps))
    decreases |steps|
  {
    hide Inv, SavesOnly, Next;
    if steps != [] {
      assert steps[0] in steps;
      StepKeepsInv(w, steps[0]);
      StepSavesOnly(w, steps[0]);
      RunSavesOnly(Next(w, steps[0]), steps[1..]);
    }
  }

  lemma {:induction false} ChainGrows(mine: seq<Commit>, k: nat)
    requires InChain(mine) && k < |mine|
    ensures mine[k].at >= k + 1
  {
    hide Satisfied;
    if k > 0 {
      ChainGrows(mine, k - 1);
      assert mine[..k][|mine[..k]| - 1] == mine[k - 1];
    }
  }

  /** In a run without rewrites a row holds its last save. */
  lemma RowHoldsLastSave(steps: seq<Step>, id: nat)
    requires NoRewrite(steps)
    ensures var w := Run(START, steps);
            var mine := CommitsOf(w.commits, id);
            id in w.rows && mine != [] ==> w.rows[id].content == mine[|mine| - 1].content
  {
    hide Run, CommitsOf, Satisfied, InChain, NoRewrite;
    StartInv();
    StartSavesOnly();
    RunKeepsInv(START, steps);
    RunSavesOnly(START, steps);
    LastSaveIsThere(Run(START, steps), id);
  }

  lemma StartSavesOnly()
    ensures SavesOnly(START)
  {
  }

  lemma LastSaveIsThere(w: World, id: nat)
    requires Inv(w) && SavesOnly(w)
    ensures var mine := CommitsOf(w.commits, id);
            id in w.rows && mine != [] ==> w.rows[id].content == mine[|mine| - 1].content
  {
    hide CommitsOf, Satisfied, InChain;
    assert RowInv(w, id);
    var mine := CommitsOf(w.commits, id);
    if id in w.rows && mine != [] {
      ChainGrows(mine, |mine| - 1);
      assert mine[|mine| - 1] in mine;
    }
  }

  // With rewrites

  predicate CanSave(w: World, request: nat) {
    && request in w.pending && w.pending[request].kind.Update?
    && CasHolds(w.rows, w.pending[request].id, w.pending[request].revision)
  }

  /** Every save that would go through now overwrites exactly what its request read. */
  ghost predicate Fresh(w: World) {
    forall r :: CanSave(w, r) ==> |HistoryOf(w.history, w.pending[r].id)| == w.pending[r].read + 1
  }

  /** A rewrite meets no request that is about to save the row. */
  ghost predicate Quiet(w: World, step: Step) {
    step.Rewrite? ==> forall r :: CanSave(w, r) ==> w.pending[r].id != step.id
  }

  lemma RewriteKeepsFresh(w: World, id: nat, content: string)
    requires Inv(w) && Fresh(w)
    ensures Fresh(Next(w, Rewrite(id, content))) <==> Quiet(w, Rewrite(id, content))
  {
    hide Satisfied, CommitsOf, RowInv, Inv;
    var w' := Next(w, Rewrite(id, content));
    assert forall r :: CanSave(w', r) <==> CanSave(w, r);
    if r :| CanSave(w, r) && w.pending[r].id == id {
      assert CanSave(w', r);
    }
  }

  lemma FinishKeepsFresh(w: World, request: nat)
    requires Inv(w) && Fresh(w)
    ensures Fresh(Next(w, Finish(request)))
  {
    hide Satisfied, CommitsOf, RowInv;
    var w' := Next(w, Finish(request));
    forall r | CanSave(w', r) ensures |HistoryOf(w'.history, w'.pending[r].id)| == w'.pending[r].read + 1 {
      assert PendingInv(w, r);
      assert CanSave(w, r);
    }
  }

  lemma LoadKeepsFresh(w: World, step: Step)
    requires Inv(w) && Fresh(w) && (step.Load? || step.Create?)
    ensures Fresh(Next(w, step))
  {
    HistoryIsThere(w);
    hide Satisfied, CommitsOf, RowInv;
    var w' := Next(w, step);
    forall r | CanSave(w', r) ensures |HistoryOf(w'.history, w'.pending[r].id)| == w'.pending[r].read + 1 {
      if r in w.pending {
        assert PendingInv(w, r);
        assert CanSave(w, r);
      }
    }
  }

  lemma StepKeepsFresh(w: World, step: Step)
    requires Inv(w) && Fresh(w)
    ensures Fresh(Next(w, step)) <==> Quiet(w, step)
  {
    hide Next, Inv, Fresh;
    match step
    case Rewrite(id, content) => RewriteKeepsFresh(w, id, content);
    case Finish(request) => FinishKeepsFresh(w, request);
    case _ => LoadKeepsFresh(w, step);
  }

  ghost predicate AllQuiet(w: World, steps: seq<Step>)
    decreases |steps|
  {
    steps == [] || (Quiet(w, steps[0]) && AllQuiet(Next(w, steps[0]), steps[1..]))
  }

  /** In every state of the run each save that would go through overwrites exactly what its request read. */
  ghost predicate AlwaysFresh(w: World, steps: seq<Step>)
    decreases |steps|
  {
    Fresh(w) && (steps == [] || AlwaysFresh(Next(w, steps[0]), steps[1..]))
  }

  lemma {:induction false} AlwaysFreshExactly(w: World, steps: seq<Step>)
    requires Inv(w) && Fresh(w)
    ensures AlwaysFresh(w, steps) <==> AllQuiet(w, steps)
    decreases |steps|
  {
    hide Inv, Fresh, Quiet, Next;
    if steps != [] {
      StepKeepsInv(w, steps[0]);
      StepKeepsFresh(w, steps[0]);
      if Quiet(w, steps[0]) {
        AlwaysFreshExactly(Next(w, steps[0]), steps[1..]);
      }
    }
  }

  /** Each save overwrote exactly what its request had read. */
  ghost predicate NothingUnread(w: World) {
    forall c :: c in w.commits ==> c.at == c.read + 1
  }

  lemma {:induction false} QuietRunOverwritesNothing(w: World, steps: seq<Step>)
    requires Inv(w) && Fresh(w) && NothingUnread(w) && AllQuiet(w, steps)
    ensures NothingUnread(Run(w, steps))
    decreases |steps|
  {
    hide Inv, Quiet, CommitsOf;
    if steps != [] {
      StepKeepsInv(w, steps[0]);
      StepKeepsFresh(w, steps[0]);
      assert NothingUnread(Next(w, steps[0])) by {
        if steps[0].Finish? && steps[0].request in w.pending {
          assert Fresh(w) && (CanSave(w, steps[0].request) || Next(w, steps[0]).commits == w.commits);
        }
      }
      hide Next, Fresh, NothingUnread;
      QuietRunOverwritesNothing(Next(w, steps[0]), steps[1..]);
    }
  }

  /**
   * No save ever gets to overwrite a write its request has not read, exactly when no rewrite in the run
   * touches a row while a request that loaded it at its present revision has yet to save it.
   */
  lemma NoLostRewriteExactly(steps: seq<Step>)
    ensures AlwaysFresh(START, steps) <==> AllQuiet(START, steps)
    ensures AllQuiet(START, steps) ==> NothingUnread(Run(START, steps))
  {
    StartInv();
    hide Run, Inv, AllQuiet, AlwaysFresh;
    AlwaysFreshExactly(START, steps);
    if AllQuiet(START, steps) {
      QuietRunOverwritesNothing(START, steps);
    }
  }

  /** A request whose header lists revisions, however it writes them, commits only on one of them. */
  lemma NamedRevisionOnly(steps: seq<Step>, id: nat, k: nat, tags: seq<Tag>, revisions: seq<nat>)
    requires ListsRevisions(tags, revisions)
    requires var mine := CommitsOf(Run(START, steps).commits, id);
             k < |mine| && mine[k].header == Join(AllWritten(tags), ',')
    ensures CommitsOf(Run(START, steps).commits, id)[k].base in revisions
  {
    hide Run, CommitsOf, Satisfied, ListsRevisions, Join;
    NoLostUpdate(steps, id);
    ListedRevisionsOnly(tags, revisions, CommitsOf(Run(START, steps).commits, id)[k].base);
  }

  /** A deleted row is never revived or written again, whatever was loaded before it was deleted. */
  lemma {:induction false} TombstoneStays(w: World, steps: seq<Step>, id: nat)
    requires id in w.rows && w.rows[id].deleted
    ensures var w' := Run(w, steps);
            id in w'.rows && w'.rows[id] == w.rows[id] && CommitsOf(w'.commits, id) == CommitsOf(w.commits, id)
    decreases |steps|
  {
    hide CommitsOf, Satisfied;
    if steps != [] {
      TombstoneStaysOnce(w, steps[0], id);
      TombstoneStays(Next(w, steps[0]), steps[1..], id);
    }
  }

  lemma TombstoneStaysOnce(w: World, step: Step, id: nat)
    requires id in w.rows && w.rows[id].deleted
    ensures var w' := Next(w, step);
            id in w'.rows && w'.rows[id] == w.rows[id] && CommitsOf(w'.commits, id) == CommitsOf(w.commits, id)
  {
    hide CommitsOf, Satisfied;
    if step.Finish? && CanSave(w, step.request) {
      OneMoreCommit(w.commits, Next(w, step).commits[|w.commits|], id);
    }
  }

  /**
   * What a pending save will be told: it goes through exactly when the row is still there and nobody has
   * saved it since the request loaded it; otherwise 404 for a deleted row and 412 for a row that another
   * request saved from the very same revision.
   */
  lemma SaveStatusIsFair(steps: seq<Step>, request: nat)
    requires request in Run(START, steps).pending
    ensures var w := Run(START, steps);
            var p := w.pending[request];
            var status, mine := SaveStatus(w.rows, p.id, p.revision), CommitsOf(w.commits, p.id);
            && p.id in w.rows && p.revision >= 1
            && (status == NotFound <==> w.rows[p.id].deleted)
            && (status == Done <==> !w.rows[p.id].deleted && forall c :: c in mine ==> c.base != p.revision)
            && (status == PreconditionFailed ==> |mine| >= p.revision && mine[p.revision - 1].base == p.revision)
  {
    hide Run, CommitsOf, Satisfied;
    var w := Run(START, steps);
    StartInv();
    RunKeepsInv(START, steps);
    var p := w.pending[request];
    assert PendingInv(w, request) && RowInv(w, p.id);
    var mine := CommitsOf(w.commits, p.id);
    if |mine| >= p.revision {
      assert mine[p.revision - 1] in mine;
    }
  }

  /** Two saves of a row never start from the same revision. */
  lemma OneWinner(steps: seq<Step>, id: nat, j: nat, k: nat)
    requires var mine := CommitsOf(Run(START, steps).commits, id);
             j < |mine| && k < |mine| && mine[j].base == mine[k].base
    ensures j == k
  {
    hide Run, CommitsOf, Satisfied;
    NoLostUpdate(steps, id);
  }

  /** A request that finishes is over, however it ends, and no other is. */
  lemma FinishEndsRequest(w: World, request: nat)
    requires request in w.pending
    ensures var pending' := Next(w, Finish(request)).pending;
            && (forall r :: r in pending' <==> r in w.pending && r != request)
            && forall r :: r in pending' ==> pending'[r] == w.pending[r]
  {
  }

  // Deletes

  /** Some run from the empty table ends in this state. */
  ghost predicate Reached(w: World) {
    exists steps :: w == Run(START, steps)
  }

  /**
   * A delete checks If-Match when it loads the row but does not compare and swap. One whose header lists
   * revisions deletes a listed revision exactly when the row's revision is still listed; with a single
   * revision, exactly when no save went through since it loaded the row.
   */
  lemma DeleteHonoursIfMatch(w: World, request: nat, tags: seq<Tag>, revisions: seq<nat>)
    requires Reached(w) && ListsRevisions(tags, revisions)
    requires request in w.pending && w.pending[request].kind.Delete?
    requires w.pending[request].header == Join(AllWritten(tags), ',')
    ensures var p := w.pending[request];
            && p.id in w.rows && p.revision in revisions
            && (Satisfied(p.header, w.rows[p.id].revision) <==> |CommitsOf(w.commits, p.id)| + 1 in revisions)
            && (|revisions| == 1 ==>
                  (Satisfied(p.header, w.rows[p.id].revision) <==> |CommitsOf(w.commits, p.id)| == p.revision - 1))
            && Finished(w, request).rows == SoftDeleted(w.rows, p.id)
  {
    hide Run, CommitsOf, Satisfied, ListsRevisions, Join;
    var steps :| w == Run(START, steps);
    StartInv();
    RunKeepsInv(START, steps);
    var p := w.pending[request];
    assert PendingInv(w, request) && RowInv(w, p.id);
    ListedRevisionsOnly(tags, revisions, p.revision);
    ListedRevisionsOnly(tags, revisions, w.rows[p.id].revision);
    if |revisions| == 1 {
      assert revisions == [revisions[0]];
    }
  }

  /** The header of a client that read revision 1: a quoted tag. */
  function QuotedOne(): string {
    Written(Tag("", false, true, Decimal.Render(1), ""))
  }

  lemma QuotedOneNamesOne(revision: nat)
    ensures Satisfied(QuotedOne(), revision) <==> revision == 1
  {
    hide Satisfied, Decimal.Render;
    var t := Tag("", false, true, Decimal.Render(1), "");
    assert ListsRevisions([t], [1]) by { QuotedDigitsAreValid(1); }
    assert AllWritten([t]) == [Written(t)];
    assert Join([Written(t)], ',') == Written(t);
    ListedRevisionsOnly([t], [1], revision);
  }

  lemma QuotedDigitsAreValid(revision: nat)
    ensures Valid(Tag("", false, true, Decimal.Render(revision), ""))
  {
    hide Decimal.Render;
    assert !Decimal.IsDigit('"');
  }

  lemma FourSteps(w: World, a: Step, b: Step, c: Step, d: Step)
    ensures Run(w, [a, b, c, d]) == Next(Next(Next(Next(w, a), b), c), d)
  {
    hide Next;
    var w1 := Next(w, a);
    var w2 := Next(w1, b);
    var w3 := Next(w2, c);
    assert [a, b, c, d][1..] == [b, c, d] && [b, c, d][1..] == [c, d] && [c, d][1..] == [d] && [d][1..] == [];
    assert Run(w3, [d]) == Run(Next(w3, d), []);
    assert Run(w2, [c, d]) == Run(w3, [d]);
    assert Run(w1, [b, c, d]) == Run(w2, [c, d]);
  }

  /** A delete and an update that both name revision 1, the update finishing first. */
  function RacingRun(): seq<Step> {
    [Create(7, "a"), Load(1, 7, QuotedOne(), Delete), Load(2, 7, QuotedOne(), Update("b")), Finish(2)]
  }

  lemma BothLoad()
    ensures var one := QuotedOne();
            var w := Next(Next(Next(START, Create(7, "a")), Load(1, 7, one, Delete)), Load(2, 7, one, Update("b")));
            && w.rows == map[7 := Row(1, "a", false)]
            && w.pending == map[1 := Pending(7, 1, one, Delete, 0), 2 := Pending(7, 1, one, Update("b"), 0)]
  {
    hide Satisfied, QuotedOne;
    QuotedOneNamesOne(1);
    var one := QuotedOne();
    var w1 := Next(START, Create(7, "a"));
    assert w1.rows == map[7 := Row(1, "a", false)] && w1.pending == map[];
    var w2 := Next(w1, Load(1, 7, one, Delete));
    assert w2.rows == w1.rows && w2.pending == map[1 := Pending(7, 1, one, Delete, 0)];
  }

  lemma UpdateFinishes(w: World, p: Pending, q: Pending)
    requires w.rows == map[7 := Row(1, "a", false)] && w.pending == map[1 := p, 2 := q]
    requires q == Pending(7, 1, q.header, Update("b"), 0)
    ensures var w' := Next(w, Finish(2));
            w'.rows == map[7 := Row(2, "b", false)] && 1 in w'.pending && w'.pending[1] == p
  {
  }

  /** So a delete that named revision 1 can remove revision 2. */
  lemma DeleteCanMissAnUpdate()
    ensures var w := Run(START, RacingRun());
            && 1 in w.pending && w.pending[1] == Pending(7, 1, QuotedOne(), Delete, 0)
            && w.rows == map[7 := Row(2, "b", false)] && !Satisfied(QuotedOne(), 2)
            && Finished(w, 1).rows == map[7 := Row(2, "b", true)]
  {
    hide Satisfied, QuotedOne, Run, Next, Finished, RacingRun;
    var one := QuotedOne();
    RacingRunIs();
    var w3 := Next(Next(Next(START, Create(7, "a")), Load(1, 7, one, Delete)), Load(2, 7, one, Update("b")));
    BothLoad();
    UpdateFinishes(w3, Pending(7, 1, one, Delete, 0), Pending(7, 1, one, Update("b"), 0));
    FourSteps(START, Create(7, "a"), Load(1, 7, one, Delete), Load(2, 7, one, Update("b")), Finish(2));
    DeleteFinishes(Next(w3, Finish(2)), Pending(7, 1, one, Delete, 0));
    QuotedOneNamesOne(2);
  }

  lemma RacingRunIs()
    ensures var one := QuotedOne();
            RacingRun() == [Create(7, "a"), Load(1, 7, one, Delete), Load(2, 7, one, Update("b")), Finish(2)]
  {
    hide QuotedOne;
  }

  lemma DeleteFinishes(w: World, p: Pending)
    requires w.rows == map[7 := Row(2, "b", false)] && 1 in w.pending && w.pending[1] == p
    requires p.id == 7 && p.kind == Delete
    ensures Finished(w, 1).rows == map[7 := Row(2, "b", true)]
  {
  }

  // A rewrite that is lost

  lemma BlankPermits(revision: nat)
    ensures Satisfied("", revision)
  {
  }

  lemma FirstIsCreated()
    ensures Next(START, Create(7, "a")) == World(map[7 := Row(1, "a", false)], map[], [], map[7 := ["a"]])
  {
  }

  lemma FirstIsLoaded(w: World, header: string)
    requires w.rows == map[7 := Row(1, "a", false)] && w.pending == map[] && w.history == map[7 := ["a"]]
    requires Satisfied(header, 1)
    ensures Next(w, Load(1, 7, header, Update("b"))) == w.(pending := map[1 := Pending(7, 1, header, Update("b"), 0)])
  {
    hide Satisfied;
  }

  lemma FirstIsRewritten(w: World)
    requires w.rows == map[7 := Row(1, "a", false)] && w.history == map[7 := ["a"]]
    ensures Next(w, Rewrite(7, "c"))
            == World(map[7 := Row(1, "c", false)], w.pending, w.commits, map[7 := ["a", "c"]])
  {
    assert HistoryOf(w.history, 7) + ["c"] == ["a", "c"];
  }

  lemma SaveAfterRewrite()
    ensures var w := World(map[7 := Row(1, "c", false)], map[1 := Pending(7, 1, "", Update("b"), 0)], [],
                           map[7 := ["a", "c"]]);
            var w' := Next(w, Finish(1));
            && w'.rows == map[7 := Row(2, "b", false)] && w'.history == map[7 := ["a", "c", "b"]]
            && w'.commits == [Commit(7, 1, "", "b", 0, 2)]
  {
    assert ["a", "c"] + ["b"] == ["a", "c", "b"];
  }

  /** A request loads revision 1, the row is rewritten, and the save goes through over what it never read. */
  lemma RewriteIsLost()
    ensures var w := Run(START, [Create(7, "a"), Load(1, 7, "", Update("b")), Rewrite(7, "c"), Finish(1)]);
            && w.rows == map[7 := Row(2, "b", false)] && w.history == map[7 := ["a", "c", "b"]]
            && w.commits == [Commit(7, 1, "", "b", 0, 2)]
  {
    hide Run, Next, Satisfied;
    FirstIsCreated();
    BlankPermits(1);
    var w := World(map[7 := Row(1, "a", false)], map[], [], map[7 := ["a"]]);
    FirstIsLoaded(w, "");
    FirstIsRewritten(w.(pending := map[1 := Pending(7, 1, "", Update("b"), 0)]));
    SaveAfterRewrite();
    FourSteps(START, Create(7, "a"), Load(1, 7, "", Update("b")), Rewrite(7, "c"), Finish(1));
  }

  // The handlers' side

  /** The table behind one entity, written the way GORM's Save and the AfterSave hook write it. */
  class RevisionTable {
    var rows: Rows

    constructor ()
      ensures rows == map[]
    {
      rows := map[];
    }

    /** `First` and `checkIfMatch`: what the request goes on with, or the status it ends with. */
    method Load(id: nat, header: string) returns (r: Result<nat, Status>)
      ensures r.Ok? <==> Live(rows, id) && Satisfied(header, rows[id].revision)
      ensures r.Ok? ==> r.value == rows[id].revision
      ensures r.Err? ==> r.error == if Live(rows, id) then PreconditionFailed else NotFound
    {
      if !Live(rows, id) {
        return Err(NotFound);
      }
      var ok := IfMatchSatisfied(header, rows[id].revision);
      return if ok then Ok(rows[id].revision) else Err(PreconditionFailed);
    }

    /** The primary UPDATE: the columns of a live row, the revision left alone. */
    method UpdateColumns(id: nat, content: string) returns (affected: nat)
      modifies this
      ensures affected == if Live(old(rows), id) then 1 else 0
      ensures rows == if Live(old(rows), id) then old(rows)[id := old(rows)[id].(content := content)] else old(rows)
    {
      if Live(rows, id) {
        rows := rows[id := rows[id].(content := content)];
        return 1;
      }
      return 0;
    }

    /** `bumpRevisionCAS`. */
    method BumpRevision(id: nat, expected: nat) returns (r: Result<nat, Conflict>)
      modifies this
      ensures r.Ok? <==> CasHolds(old(rows), id, expected)
      ensures r.Ok? ==> r.value == expected + 1 && rows == old(rows)[id := old(rows)[id].(revision := expected + 1)]
      ensures r.Err? ==> rows == old(rows) && r.error == Conflict(id, expected, !Live(old(rows), id))
    {
      if CasHolds(rows, id, expected) {
        rows := rows[id := rows[id].(revision := expected + 1)];
        return Ok(expected + 1);
      }
      return Err(Conflict(id, expected, !Live(rows, id)));
    }

    /**
     * Save in its transaction: a failed swap rolls the update back. Save's upsert, meant for an update
     * that matched no row, is never reached.
     */
    method Save(id: nat, expected: nat, content: string) returns (r: Result<nat, Conflict>)
      modifies this
      ensures rows == Saved(old(rows), id, expected, content)
      ensures StatusOf(r) == SaveStatus(old(rows), id, expected)
      ensures r.Ok? ==> r.value == expected + 1
    {
      var before := rows;
      var affected := UpdateColumns(id, content);
      r := BumpRevision(id, expected);
      if r.Err? {
        rows := before;
      } else {
        assert affected == 1;
      }
    }

    method SoftDelete(id: nat)
      modifies this
      ensures rows == SoftDeleted(old(rows), id)
    {
      if Live(rows, id) {
        rows := rows[id := rows[id].(deleted := true)];
      }
    }
  }
}
