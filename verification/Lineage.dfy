/** Titles, the ancestor paths they carry, and the per-author count of live titles.

    A title's lineage is computed once, at creation, from the parent row it can
    see. Its author's title_count is kept by a second statement after the insert,
    and lowered by a second statement after a tombstone.
 */
module Lineage {
  import opened Sums

  type Pial = int

  // ── Paths ──────────────────────────────────────────────────────────────────

  /** A printed UUID: not empty, no separator. */
  predicate IsId(s: string) {
    s != "" && '/' !in s
  }

  predicate AllIds(ids: seq<string>) {
    forall k :: 0 <= k < |ids| ==> IsId(ids[k])
  }

  /** The path of a chain, root first. */
  function Join(ids: seq<string>): string {
    if ids == [] then ""
    else if |ids| == 1 then ids[0]
    else Join(ids[..|ids| - 1]) + "/" + ids[|ids| - 1]
  }

  /** str::split('/'). */
  function Split(s: string): (parts: seq<string>)
    ensures |parts| > 0
  {
    if s == "" then [""]
    else if s[0] == '/' then [""] + Split(s[1..])
    else [[s[0]] + Split(s[1..])[0]] + Split(s[1..])[1..]
  }

  lemma {:induction false} SplitOfId(s: string)
    requires '/' !in s
    ensures Split(s) == [s]
  {
    if s != "" {
      SplitOfId(s[1..]);
      assert [s[0]] + s[1..] == s;
    }
  }

  lemma {:induction false} SplitAfterSeparator(s: string, id: string)
    requires '/' !in id
    ensures Split(s + "/" + id) == Split(s) + [id]
  {
    var whole := s + "/" + id;
    if s == "" {
      assert whole[0] == '/' && whole[1..] == id;
      SplitOfId(id);
    } else {
      SplitAfterSeparator(s[1..], id);
      assert whole[1..] == s[1..] + "/" + id;
    }
  }

  /** A path parses back to its chain. */
  lemma {:induction false} SplitUndoesJoin(ids: seq<string>)
    requires ids != [] && AllIds(ids)
    ensures Join(ids) != "" && Split(Join(ids)) == ids
    decreases |ids|
  {
    if |ids| == 1 {
      SplitOfId(ids[0]);
    } else {
      var init, last := ids[..|ids| - 1], ids[|ids| - 1];
      SplitUndoesJoin(init);
      SplitAfterSeparator(Join(init), last);
      assert init + [last] == ids;
    }
  }

  /** Two chains with the same path are the same chain. */
  lemma {:induction false} JoinIsInjective(a: seq<string>, b: seq<string>)
    requires AllIds(a) && AllIds(b) && Join(a) == Join(b)
    ensures a == b
  {
    if a != [] {
      SplitUndoesJoin(a);
    }
    if b != [] {
      SplitUndoesJoin(b);
    }
  }

  /** usize as i16. */
  function AsI16(n: int): int {
    (n + 32768) % 65536 - 32768
  }

  // ── Titles ─────────────────────────────────────────────────────────────────

  /** read records whether the query for the parent's lineage answered when the title
      was created; a failed query is treated as a parent that is not there.
   */
  datatype Title = Title(id: string, author: Pial, parent: Option<string>, lineage: string, depth: int, live: bool, read: bool)

  function FindBelow(titles: seq<Title>, k: nat, id: string): (found: Option<nat>)
    requires k <= |titles|
    ensures found.Some? ==> found.value < k && titles[found.value].id == id
    ensures found.None? ==> forall i :: 0 <= i < k ==> titles[i].id != id
  {
    if k == 0 then None
    else if titles[k - 1].id == id then Some(k - 1)
    else FindBelow(titles, k - 1, id)
  }

  /** The lineage create_title stores. */
  function LineageFor(titles: seq<Title>, parent: Option<string>, read: bool): string {
    match parent
    case None => ""
    case Some(pid) =>
      var row := FindBelow(titles, |titles|, pid);
      if read && row.Some? && titles[row.value].lineage != "" then titles[row.value].lineage + "/" + pid else pid
  }

  function DepthOf(lineage: string): int {
    if lineage == "" then 0 else AsI16(|Split(lineage)|)
  }

  function NewTitle(titles: seq<Title>, id: string, author: Pial, parent: Option<string>, read: bool): Title {
    var lineage := LineageFor(titles, parent, read);
    Title(id, author, parent, lineage, DepthOf(lineage), true, read)
  }

  /** The row of k's parent among the titles created before it. */
  function ParentRow(titles: seq<Title>, k: nat): Option<nat>
    requires k < |titles|
  {
    if titles[k].parent.None? then None else FindBelow(titles, k, titles[k].parent.value)
  }

  /** Ancestors root first, by following parent_id. */
  function Chain(titles: seq<Title>, k: nat): seq<string>
    requires k < |titles|
  {
    if titles[k].parent.None? then []
    else
      var row := ParentRow(titles, k);
      (if row.None? then [] else Chain(titles, row.value)) + [titles[k].parent.value]
  }

  /** The ancestors k's lineage can know of. */
  function Known(titles: seq<Title>, k: nat): seq<string>
    requires k < |titles|
  {
    if titles[k].parent.None? then []
    else
      var row := ParentRow(titles, k);
      (if row.None? || !titles[k].read then [] else Known(titles, row.value)) + [titles[k].parent.value]
  }

  /** Every query that mattered answered: k's own unless its parent is missing or a
      root, and its parent's.
   */
  predicate Faithful(titles: seq<Title>, k: nat)
    requires k < |titles|
  {
    var row := ParentRow(titles, k);
    row.None? || titles[row.value].parent.None? || (titles[k].read && Faithful(titles, row.value))
  }

  predicate WellFormed(titles: seq<Title>) {
    forall k :: 0 <= k < |titles| ==> IsId(titles[k].id) && (titles[k].parent.Some? ==> IsId(titles[k].parent.value))
  }

  predicate Distinct(titles: seq<Title>) {
    forall j, k :: 0 <= j < k < |titles| ==> titles[j].id != titles[k].id
  }

  /** No title's parent is itself or a title created later. */
  predicate ParentsComeFirst(titles: seq<Title>) {
    forall j, k :: 0 <= j <= k < |titles| ==> titles[j].parent != Some(titles[k].id)
  }

  predicate PathStored(titles: seq<Title>, k: nat)
    requires k < |titles|
  {
    titles[k].lineage == Join(Known(titles, k)) && titles[k].depth == DepthOf(titles[k].lineage)
  }

  predicate Sound(titles: seq<Title>) {
    && WellFormed(titles) && Distinct(titles) && ParentsComeFirst(titles)
    && forall k :: 0 <= k < |titles| ==> PathStored(titles, k)
  }

  /** gen_random_uuid() never returns an id that a row already has or names as a parent. */
  predicate NeverDrawn(titles: seq<Title>, id: string) {
    IsId(id) && forall k :: 0 <= k < |titles| ==> titles[k].id != id && titles[k].parent != Some(id)
  }

  lemma {:induction false} KnownAreIds(titles: seq<Title>, k: nat)
    requires WellFormed(titles) && k < |titles|
    ensures AllIds(Known(titles, k))
    ensures Known(titles, k) == [] <==> titles[k].parent.None?
    decreases k
  {
    var row := ParentRow(titles, k);
    if row.Some? {
      KnownAreIds(titles, row.value);
    }
  }

  /** Paths below k do not depend on what is created after. */
  lemma {:induction false} FindInPrefix(titles: seq<Title>, more: seq<Title>, k: nat, id: string)
    requires k <= |titles| <= |more| && forall i :: 0 <= i < |titles| ==> more[i].id == titles[i].id
    ensures FindBelow(more, k, id) == FindBelow(titles, k, id)
  {
    if k != 0 {
      FindInPrefix(titles, more, k - 1, id);
    }
  }

  /** The fields a path is made of; tombstoning changes none of them. */
  predicate SamePaths(titles: seq<Title>, more: seq<Title>) {
    |titles| <= |more| && forall i :: 0 <= i < |titles| ==> more[i].(live := true) == titles[i].(live := true)
  }

  lemma {:induction false} PathsStay(titles: seq<Title>, more: seq<Title>, k: nat)
    requires SamePaths(titles, more) && k < |titles|
    ensures Known(more, k) == Known(titles, k) && Chain(more, k) == Chain(titles, k)
    decreases k
  {
    assert more[k].(live := true) == titles[k].(live := true);
    assert more[k].parent == titles[k].parent && more[k].read == titles[k].read;
    if titles[k].parent.Some? {
      FindInPrefix(titles, more, k, titles[k].parent.value);
      var row := ParentRow(titles, k);
      if row.Some? {
        PathsStay(titles, more, row.value);
      }
    }
  }

  /** What a new title stores is the path of what it knows. */
  lemma {:induction false} NewPathIsStored(titles: seq<Title>, id: string, author: Pial, parent: Option<string>,
      read: bool)
    requires Sound(titles) && (parent.Some? ==> IsId(parent.value))
    ensures var more := titles + [NewTitle(titles, id, author, parent, read)];
            PathStored(more, |titles|)
  {
    var more := titles + [NewTitle(titles, id, author, parent, read)];
    if parent.Some? {
      FindInPrefix(titles, more, |titles|, parent.value);
      var row := FindBelow(titles, |titles|, parent.value);
      if read && row.Some? {
        assert PathStored(titles, row.value);
        KnownAreIds(titles, row.value);
        PathsStay(titles, more, row.value);
        var known := Known(titles, row.value);
        if known != [] {
          SplitUndoesJoin(known);
          assert (known + [parent.value])[..|known|] == known;
        }
      }
    }
  }

  lemma {:induction false} CreateKeepsSound(titles: seq<Title>, id: string, author: Pial, parent: Option<string>,
      read: bool)
    requires Sound(titles) && NeverDrawn(titles, id)
    requires parent.Some? ==> IsId(parent.value) && parent.value != id
    ensures Sound(titles + [NewTitle(titles, id, author, parent, read)])
  {
    var more := titles + [NewTitle(titles, id, author, parent, read)];
    forall k | 0 <= k < |more|
      ensures PathStored(more, k)
    {
      if k < |titles| {
        assert PathStored(titles, k);
        PathsStay(titles, more, k);
      } else {
        NewPathIsStored(titles, id, author, parent, read);
      }
    }
  }

  /** Tombstoned parents keep their path: a tombstone changes nobody's lineage. */
  lemma {:induction false} TombstoneKeepsSound(titles: seq<Title>, k: nat)
    requires Sound(titles) && k < |titles|
    ensures Sound(titles[k := titles[k].(live := false)])
  {
    var more := titles[k := titles[k].(live := false)];
    forall j | 0 <= j < |more|
      ensures PathStored(more, j)
    {
      assert PathStored(titles, j);
      PathsStay(titles, more, j);
    }
  }

  /** The stored path parses back to what the title knows, and is empty exactly for a root. */
  lemma {:induction false} LineageParsesBack(titles: seq<Title>, k: nat)
    requires Sound(titles) && k < |titles|
    ensures titles[k].lineage == "" <==> titles[k].parent.None?
    ensures titles[k].parent.Some? ==> Split(titles[k].lineage) == Known(titles, k)
    ensures titles[k].depth == AsI16(|Known(titles, k)|)
  {
    assert PathStored(titles, k);
    KnownAreIds(titles, k);
    if titles[k].parent.Some? {
      SplitUndoesJoin(Known(titles, k));
    }
  }

  /** Beyond 32767 ancestors the depth wraps around in 16 bits. */
  lemma {:induction false} DepthWraps(titles: seq<Title>, k: nat) returns (turns: int)
    requires Sound(titles) && k < |titles|
    ensures -32768 <= titles[k].depth < 32768 && |Known(titles, k)| == titles[k].depth + turns * 65536
  {
    LineageParsesBack(titles, k);
    turns := (|Known(titles, k)| + 32768) / 65536;
  }

  lemma {:induction false} KnownIsChainExactly(titles: seq<Title>, k: nat)
    requires k < |titles|
    ensures Known(titles, k) == Chain(titles, k) <==> Faithful(titles, k)
    ensures !Faithful(titles, k) ==> |Known(titles, k)| < |Chain(titles, k)|
    decreases k
  {
    var row := ParentRow(titles, k);
    if row.Some? {
      KnownIsChainExactly(titles, row.value);
      var pid := titles[k].parent.value;
      var up, known := Chain(titles, row.value), if titles[k].read then Known(titles, row.value) else [];
      assert (known + [pid])[..|known|] == known && (up + [pid])[..|up|] == up;
    }
  }

  /** A lineage is the whole chain of ancestors, root first, exactly when no query for
      a parent with ancestors of its own failed along it.
   */
  lemma {:induction false} LineageIsChainExactly(titles: seq<Title>, k: nat)
    requires Sound(titles) && k < |titles| && titles[k].parent.Some?
    ensures Split(titles[k].lineage) == Chain(titles, k) <==> Faithful(titles, k)
  {
    LineageParsesBack(titles, k);
    KnownIsChainExactly(titles, k);
  }

  /** Depth is the length of the chain exactly when the lineage is the whole chain and
      no longer than 32767: beyond, the i16 wraps.
   */
  lemma {:induction false} DepthIsLengthExactly(titles: seq<Title>, k: nat)
    requires Sound(titles) && k < |titles|
    ensures titles[k].depth == |Chain(titles, k)| <==> Faithful(titles, k) && |Chain(titles, k)| <= 32767
  {
    LineageParsesBack(titles, k);
    KnownIsChainExactly(titles, k);
  }

  /** No title is its own ancestor, nor is one created after it. */
  lemma {:induction false} AncestorsAreOlder(titles: seq<Title>, k: nat, later: nat)
    requires Sound(titles) && k <= later < |titles|
    ensures titles[later].id !in Chain(titles, k)
    ensures titles[later].id !in Known(titles, k)
    decreases k
  {
    var row := ParentRow(titles, k);
    if row.Some? {
      AncestorsAreOlder(titles, row.value, later);
    }
  }
}
