/** title_count against the rows it counts, statement by statement.

    create_title inserts the row and then, as a separate statement whose failure is
    only logged, adds one. tombstone_title marks the row and then, ignoring
    failure, lowers the count with GREATEST(0, title_count - 1). Other requests run
    in between, and a process that dies in between never runs the second statement.
 */
module TitleCount {
  import opened Sums
  import opened Lineage

  /** titles and authors.title_count, and whose second statements are still to run. */
  datatype World = World(titles: seq<Title>, counts: map<Pial, int>, toAdd: multiset<Pial>, toLower: multiset<Pial>)

  const EMPTY: World := World([], map[], multiset{}, multiset{})

  function LiveBy(titles: seq<Title>, a: Pial): nat {
    if titles == [] then 0
    else LiveBy(titles[..|titles| - 1], a) + if titles[|titles| - 1].live && titles[|titles| - 1].author == a then 1 else 0
  }

  function CountOf(counts: map<Pial, int>, a: Pial): int {
    if a in counts then counts[a] else 0
  }

  /** INSERT INTO authors … ON CONFLICT DO UPDATE SET title_count = title_count + 1. */
  function Added(counts: map<Pial, int>, a: Pial): map<Pial, int> {
    counts[a := CountOf(counts, a) + 1]
  }

  /** UPDATE authors SET title_count = GREATEST(0, title_count - 1) WHERE pial_id = a. */
  function Lowered(counts: map<Pial, int>, a: Pial): map<Pial, int> {
    if a !in counts then counts else counts[a := if counts[a] > 1 then counts[a] - 1 else 0]
  }

  /** The floor of GREATEST changes the result, or there is no row to lower. */
  predicate LowersNothing(counts: map<Pial, int>, a: Pial) {
    CountOf(counts, a) <= 0
  }

  datatype Step =
    | Insert(id: string, author: Pial, parent: Option<string>, read: bool)
    | Add(author: Pial, ok: bool)
    | Mark(k: nat, caller: Pial)
    | Lower(author: Pial, ok: bool)
    | BootstrapAuthor(author: Pial)

  predicate Marks(titles: seq<Title>, k: nat, caller: Pial) {
    k < |titles| && titles[k].live && titles[k].author == caller
  }

  predicate Enabled(w: World, s: Step) {
    match s
    case Insert(id, author, parent, read) =>
      NeverDrawn(w.titles, id) && (parent.Some? ==> IsId(parent.value) && parent.value != id)
    case Add(author, _) => author in w.toAdd
    case Mark(k, caller) => Marks(w.titles, k, caller)
    case Lower(author, _) => author in w.toLower
    case BootstrapAuthor(_) => true
  }

  function Next(w: World, s: Step): World
    requires Enabled(w, s)
  {
    match s
    case Insert(id, author, parent, read) =>
      w.(titles := w.titles + [NewTitle(w.titles, id, author, parent, read)], toAdd := w.toAdd + multiset{author})
    case Add(author, ok) =>
      w.(toAdd := w.toAdd - multiset{author}, counts := if ok then Added(w.counts, author) else w.counts)
    case Mark(k, caller) =>
      w.(titles := w.titles[k := w.titles[k].(live := false)], toLower := w.toLower + multiset{caller})
    case Lower(author, ok) =>
      w.(toLower := w.toLower - multiset{author}, counts := if ok then Lowered(w.counts, author) else w.counts)
    case BootstrapAuthor(author) =>
      if author in w.counts then w else w.(counts := w.counts[author := 0])
  }

  // ── Schedules ──────────────────────────────────────────────────────────────

  /** Every step of the schedule can be taken, from an empty library. */
  predicate Possible(steps: seq<Step>)
    decreases |steps|, 0
  {
    steps == [] || (Possible(steps[..|steps| - 1]) && Enabled(After(steps[..|steps| - 1]), steps[|steps| - 1]))
  }

  function After(steps: seq<Step>): World
    requires Possible(steps)
    decreases |steps|, 1
  {
    if steps == [] then EMPTY else Next(After(steps[..|steps| - 1]), steps[|steps| - 1])
  }

  predicate Creates(s: Step, a: Pial) {
    s.Insert? && s.author == a
  }

  predicate Tombstones(s: Step, a: Pial) {
    s.Mark? && s.caller == a
  }

  function Creations(steps: seq<Step>, a: Pial): nat {
    if steps == [] then 0
    else Creations(steps[..|steps| - 1], a) + if Creates(steps[|steps| - 1], a) then 1 else 0
  }

  /** Additions that were carried out; those that failed do not count. */
  function Additions(steps: seq<Step>, a: Pial): nat {
    if steps == [] then 0
    else Additions(steps[..|steps| - 1], a) + if steps[|steps| - 1] == Add(a, true) then 1 else 0
  }

  function Removals(steps: seq<Step>, a: Pial): nat {
    if steps == [] then 0
    else Removals(steps[..|steps| - 1], a) + if Tombstones(steps[|steps| - 1], a) then 1 else 0
  }

  /** Lowerings that were carried out, whether or not there was anything to lower. */
  function Lowerings(steps: seq<Step>, a: Pial): nat {
    if steps == [] then 0
    else Lowerings(steps[..|steps| - 1], a) + if steps[|steps| - 1] == Lower(a, true) then 1 else 0
  }

  /** The most by which lowerings were ever ahead of additions. */
  function Lead(steps: seq<Step>, a: Pial): nat {
    if steps == [] then 0
    else
      var before, ahead := Lead(steps[..|steps| - 1], a), Lowerings(steps, a) - Additions(steps, a);
      if ahead > before then ahead else before
  }

  predicate NeverAhead(steps: seq<Step>, a: Pial) {
    forall i :: 0 <= i <= |steps| ==> Lowerings(steps[..i], a) <= Additions(steps[..i], a)
  }

  /** Lead is the largest lead of any prefix, and none is negative. */
  lemma {:induction false} LeadIsLargest(steps: seq<Step>, a: Pial)
    ensures forall i :: 0 <= i <= |steps| ==> Lowerings(steps[..i], a) - Additions(steps[..i], a) <= Lead(steps, a)
    ensures exists i :: 0 <= i <= |steps| && Lowerings(steps[..i], a) - Additions(steps[..i], a) == Lead(steps, a)
    decreases |steps|
  {
    if steps == [] {
      assert steps[..0] == [];
    } else {
      var init := steps[..|steps| - 1];
      LeadIsLargest(init, a);
      assert steps[..|steps|] == steps;
      assert forall i :: 0 <= i <= |init| ==> steps[..i] == init[..i];
      var i :| 0 <= i <= |init| && Lowerings(init[..i], a) - Additions(init[..i], a) == Lead(init, a);
      assert steps[..i] == init[..i];
    }
  }

  lemma {:induction false} NoLeadMeansNeverAhead(steps: seq<Step>, a: Pial)
    ensures Lead(steps, a) == 0 <==> NeverAhead(steps, a)
  {
    LeadIsLargest(steps, a);
  }

  // ── The count follows the schedule ─────────────────────────────────────────

  /** How a's titles and count stand after so many creations, removals, additions and lowerings. */
  predicate Agrees(w: World, a: Pial, created: int, removed: int, added: int, lowered: int, lead: int) {
    && LiveBy(w.titles, a) == created - removed
    && CountOf(w.counts, a) == added - lowered + lead
    && w.toAdd[a] <= created - added
    && w.toLower[a] <= removed - lowered
    && lead >= 0 && lead >= lowered - added
  }

  predicate Follows(w: World, steps: seq<Step>, a: Pial) {
    Agrees(w, a, Creations(steps, a), Removals(steps, a), Additions(steps, a), Lowerings(steps, a), Lead(steps, a))
  }

  lemma {:induction false} LiveAfterAppend(titles: seq<Title>, t: Title, a: Pial)
    ensures LiveBy(titles + [t], a) == LiveBy(titles, a) + if t.live && t.author == a then 1 else 0
  {
  }

  lemma {:induction false} LiveAfterMark(titles: seq<Title>, k: nat, a: Pial)
    requires k < |titles| && titles[k].live
    ensures LiveBy(titles[k := titles[k].(live := false)], a) == LiveBy(titles, a) - if titles[k].author == a then 1 else 0
    decreases |titles|
  {
    var marked := titles[k := titles[k].(live := false)];
    if k == |titles| - 1 {
      assert marked[..k] == titles[..k];
    } else {
      LiveAfterMark(titles[..|titles| - 1], k, a);
      assert marked[..|titles| - 1] == titles[..|titles| - 1][k := titles[k].(live := false)];
    }
  }

  lemma {:induction false} InsertAgrees(w: World, s: Step, a: Pial, created: int, removed: int, added: int,
      lowered: int, lead: int)
    requires s.Insert? && Enabled(w, s) && Agrees(w, a, created, removed, added, lowered, lead)
    ensures Agrees(Next(w, s), a, created + (if s.author == a then 1 else 0), removed, added, lowered, lead)
  {
    LiveAfterAppend(w.titles, NewTitle(w.titles, s.id, s.author, s.parent, s.read), a);
  }

  lemma {:induction false} MarkAgrees(w: World, s: Step, a: Pial, created: int, removed: int, added: int,
      lowered: int, lead: int)
    requires s.Mark? && Enabled(w, s) && Agrees(w, a, created, removed, added, lowered, lead)
    ensures Agrees(Next(w, s), a, created, removed + (if s.caller == a then 1 else 0), added, lowered, lead)
  {
    LiveAfterMark(w.titles, s.k, a);
  }

  lemma {:induction false} AddAgrees(w: World, s: Step, a: Pial, created: int, removed: int, added: int,
      lowered: int, lead: int)
    requires s.Add? && Enabled(w, s) && Agrees(w, a, created, removed, added, lowered, lead)
    ensures Agrees(Next(w, s), a, created, removed, added + (if s == Add(a, true) then 1 else 0), lowered, lead)
  {
  }

  /** A lowering lowers the count, or takes the lead further than it ever was. */
  lemma {:induction false} LowerAgrees(w: World, s: Step, a: Pial, created: int, removed: int, added: int,
      lowered: int, lead: int)
    requires s.Lower? && Enabled(w, s) && Agrees(w, a, created, removed, added, lowered, lead)
    ensures var now := lowered + if s == Lower(a, true) then 1 else 0;
            Agrees(Next(w, s), a, created, removed, added, now, if now - added > lead then now - added else lead)
  {
  }

  lemma {:induction false} LeadIsAhead(steps: seq<Step>, a: Pial)
    ensures Lead(steps, a) >= Lowerings(steps, a) - Additions(steps, a)
  {
  }

  /** In every reachable state, however requests overlap and fail: the live titles are
      those created and not removed, and the count is what was added less what was
      lowered, raised by the largest lead the lowerings ever had.
   */
  lemma {:induction false} CountFollowsTheSchedule(steps: seq<Step>, a: Pial)
    requires Possible(steps)
    ensures Follows(After(steps), steps, a)
    decreases |steps|
  {
    if steps != [] {
      var init, s := steps[..|steps| - 1], steps[|steps| - 1];
      var w := After(init);
      CountFollowsTheSchedule(init, a);
      LeadIsAhead(init, a);
      var c, r, x, l, lead := Creations(init, a), Removals(init, a), Additions(init, a), Lowerings(init, a), Lead(init, a);
      match s
      case Insert(_, _, _, _) => InsertAgrees(w, s, a, c, r, x, l, lead);
      case Mark(_, _) => MarkAgrees(w, s, a, c, r, x, l, lead);
      case Add(_, _) => AddAgrees(w, s, a, c, r, x, l, lead);
      case Lower(_, _) => LowerAgrees(w, s, a, c, r, x, l, lead);
      case BootstrapAuthor(_) =>
    }
  }

  lemma {:induction false} StepKeepsSound(w: World, s: Step)
    requires Enabled(w, s) && Sound(w.titles)
    ensures Sound(Next(w, s).titles)
  {
    match s
    case Insert(id, author, parent, read) => CreateKeepsSound(w.titles, id, author, parent, read);
    case Mark(k, _) => TombstoneKeepsSound(w.titles, k);
    case Add(_, _) =>
    case Lower(_, _) =>
    case BootstrapAuthor(_) =>
  }

  lemma {:induction false} TitlesStaySound(steps: seq<Step>)
    requires Possible(steps)
    ensures Sound(After(steps).titles)
    ensures var titles := After(steps).titles; forall j, k :: 0 <= j < k < |titles| ==> titles[j].id != titles[k].id
    decreases |steps|
  {
    if steps != [] {
      TitlesStaySound(steps[..|steps| - 1]);
      StepKeepsSound(After(steps[..|steps| - 1]), steps[|steps| - 1]);
    }
  }

  // ── Exactly when the count is right ────────────────────────────────────────

  /** The count is the number of live titles exactly when the creations not counted,
      owed or failed, are as many as the removals not lowered and the largest lead of
      lowerings over additions together. All of it can be read off the schedule.
   */
  lemma {:induction false} CountIsLiveExactly(steps: seq<Step>, a: Pial)
    requires Possible(steps)
    ensures CountOf(After(steps).counts, a) == LiveBy(After(steps).titles, a) <==>
              Creations(steps, a) - Additions(steps, a) == Removals(steps, a) - Lowerings(steps, a) + Lead(steps, a)
  {
    CountFollowsTheSchedule(steps, a);
  }

  /** Once every statement has been carried out, the count is right if and only if at no
      time more lowerings than additions had been; otherwise it is too high for good.
   */
  lemma {:induction false} SettledCountIsLiveExactly(steps: seq<Step>, a: Pial)
    requires Possible(steps)
    requires Creations(steps, a) == Additions(steps, a) && Removals(steps, a) == Lowerings(steps, a)
    ensures CountOf(After(steps).counts, a) == LiveBy(After(steps).titles, a) <==> NeverAhead(steps, a)
    ensures CountOf(After(steps).counts, a) >= LiveBy(After(steps).titles, a)
  {
    CountFollowsTheSchedule(steps, a);
    NoLeadMeansNeverAhead(steps, a);
  }

  /** A lowering meets the floor exactly when it takes the lead beyond all before, and
      never while every creation has been counted.
   */
  lemma {:induction false} FloorIsReachedExactly(steps: seq<Step>, a: Pial)
    requires Possible(steps) && Enabled(After(steps), Lower(a, true))
    ensures LowersNothing(After(steps).counts, a) <==> Lowerings(steps, a) + 1 - Additions(steps, a) > Lead(steps, a)
    ensures Creations(steps, a) == Additions(steps, a) ==> !LowersNothing(After(steps).counts, a)
  {
    CountFollowsTheSchedule(steps, a);
    LeadIsLargest(steps, a);
    assert steps[..|steps|] == steps;
  }

  // ── One request at a time ──────────────────────────────────────────────────

  /** The two statements of one handler. */
  predicate Pair(first: Step, second: Step) {
    || (first.Insert? && second == Add(first.author, true))
    || (first.Mark? && second == Lower(first.caller, true))
  }

  /** Every handler runs to its end, with its statements answered, before the next begins. */
  predicate Serial(steps: seq<Step>)
    decreases |steps|
  {
    var n := |steps|;
    || n == 0
    || (steps[n - 1].BootstrapAuthor? && Serial(steps[..n - 1]))
    || (n > 1 && Pair(steps[n - 2], steps[n - 1]) && Serial(steps[..n - 2]))
  }

  lemma {:induction false} PairCounts(steps: seq<Step>, a: Pial)
    requires |steps| > 1 && Pair(steps[|steps| - 2], steps[|steps| - 1])
    ensures var before := steps[..|steps| - 2];
            && Creations(steps, a) - Additions(steps, a) == Creations(before, a) - Additions(before, a)
            && Removals(steps, a) - Lowerings(steps, a) == Removals(before, a) - Lowerings(before, a)
            && Lead(steps, a) <= (if Lead(before, a) > Lowerings(steps, a) - Additions(steps, a) then Lead(before, a)
                                  else Lowerings(steps, a) - Additions(steps, a))
  {
    var mid := steps[..|steps| - 1];
    var before := steps[..|steps| - 2];
    assert mid[..|mid| - 1] == before && mid[|mid| - 1] == steps[|steps| - 2];
    LeadIsLargest(before, a);
    assert before[..|before|] == before;
  }

  lemma {:induction false} SerialNeverLeads(steps: seq<Step>, a: Pial)
    requires Possible(steps) && Serial(steps)
    ensures Creations(steps, a) == Additions(steps, a) && Removals(steps, a) == Lowerings(steps, a) && Lead(steps, a) == 0
    decreases |steps|
  {
    var n := |steps|;
    if n > 0 {
      if steps[n - 1].BootstrapAuthor? && Serial(steps[..n - 1]) {
        SerialNeverLeads(steps[..n - 1], a);
        LeadIsAhead(steps[..n - 1], a);
      } else {
        assert steps[..n - 1][..n - 2] == steps[..n - 2];
        SerialNeverLeads(steps[..n - 2], a);
        PairCounts(steps, a);
        CountFollowsTheSchedule(steps, a);
      }
    }
  }

  /** Served one at a time, each author's count is always the number of live titles and
      no lowering ever met the floor.
   */
  lemma {:induction false} SerialCountsAreLive(steps: seq<Step>, a: Pial)
    requires Possible(steps) && Serial(steps)
    ensures CountOf(After(steps).counts, a) == LiveBy(After(steps).titles, a) && NeverAhead(steps, a)
  {
    SerialNeverLeads(steps, a);
    CountIsLiveExactly(steps, a);
    NoLeadMeansNeverAhead(steps, a);
  }

  lemma {:induction false} OneMoreStep(steps: seq<Step>, s: Step, a: Pial)
    requires Possible(steps) && Enabled(After(steps), s)
    ensures var more := steps + [s];
            && Possible(more) && After(more) == Next(After(steps), s)
            && Creations(more, a) == Creations(steps, a) + (if Creates(s, a) then 1 else 0)
            && Removals(more, a) == Removals(steps, a) + (if Tombstones(s, a) then 1 else 0)
            && Additions(more, a) == Additions(steps, a) + (if s == Add(a, true) then 1 else 0)
            && Lowerings(more, a) == Lowerings(steps, a) + (if s == Lower(a, true) then 1 else 0)
            && Lead(more, a) == (if Lowerings(more, a) - Additions(more, a) > Lead(steps, a)
                                 then Lowerings(more, a) - Additions(more, a) else Lead(steps, a))
  {
    assert (steps + [s])[..|steps|] == steps;
  }

  /** A title created and tombstoned, with both counts still to be changed. */
  lemma {:induction false} CreatedAndRemoved(id: string, a: Pial) returns (steps: seq<Step>)
    requires IsId(id)
    ensures Possible(steps) && a in After(steps).toAdd && a in After(steps).toLower
    ensures Creations(steps, a) == 1 && Removals(steps, a) == 1
    ensures Additions(steps, a) == 0 && Lowerings(steps, a) == 0 && Lead(steps, a) == 0
  {
    OneMoreStep([], Insert(id, a, None, true), a);
    steps := [] + [Insert(id, a, None, true)];
    assert After(steps).titles[0].live && After(steps).titles[0].author == a;
    OneMoreStep(steps, Mark(0, a), a);
    steps := steps + [Mark(0, a)];
  }

  lemma {:induction false} LoweredThenAdded(steps: seq<Step>, a: Pial) returns (more: seq<Step>)
    requires Possible(steps) && a in After(steps).toAdd && a in After(steps).toLower
    requires Additions(steps, a) == 0 && Lowerings(steps, a) == 0 && Lead(steps, a) == 0
    ensures Possible(more) && Creations(more, a) == Creations(steps, a) && Removals(more, a) == Removals(steps, a)
    ensures Additions(more, a) == 1 && Lowerings(more, a) == 1 && Lead(more, a) == 1
  {
    OneMoreStep(steps, Lower(a, true), a);
    more := steps + [Lower(a, true)];
    OneMoreStep(more, Add(a, true), a);
    more := more + [Add(a, true)];
  }

  /** Overlapping, it can stay wrong for good: a title tombstoned between its insert and
      its addition leaves a count of one and no live title, with every statement done.
   */
  lemma {:induction false} OverlapLeavesAGhost(id: string, author: Pial) returns (steps: seq<Step>)
    requires IsId(id)
    ensures Possible(steps) && !NeverAhead(steps, author)
    ensures Creations(steps, author) == Additions(steps, author) && Removals(steps, author) == Lowerings(steps, author)
    ensures CountOf(After(steps).counts, author) == 1 && LiveBy(After(steps).titles, author) == 0
  {
    var both := CreatedAndRemoved(id, author);
    steps := LoweredThenAdded(both, author);
    CountFollowsTheSchedule(steps, author);
    NoLeadMeansNeverAhead(steps, author);
  }
}
