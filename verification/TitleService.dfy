/** Alexandria's title handlers as they run, on rows that change in place. */
module TitleService {
  import opened Sums
  import opened Lineage
  import opened TitleCount

  class LibraryDb {
    var titles: seq<Title>
    var counts: map<Pial, int>

    ghost predicate Valid()
      reads this
    {
      Sound(titles) && forall a :: a in counts ==> counts[a] >= 0
    }

    constructor ()
      ensures Valid() && titles == [] && counts == map[]
    {
      titles, counts := [], map[];
    }

    /** SELECT lineage FROM titles WHERE id = pid, by a scan of the rows. */
    method LineageOf(pid: string) returns (lineage: Option<string>)
      ensures var row := FindBelow(titles, |titles|, pid);
              lineage == if row.None? then None else Some(titles[row.value].lineage)
    {
      var k := |titles|;
      while k > 0
        invariant 0 <= k <= |titles|
        invariant FindBelow(titles, |titles|, pid) == FindBelow(titles, k, pid)
      {
        if titles[k - 1].id == pid {
          return Some(titles[k - 1].lineage);
        }
        k := k - 1;
      }
      lineage := None;
    }

    /** The path for a new title; a query that fails is taken for a missing parent. */
    method LineageUnder(parent: Option<string>, read: bool) returns (lineage: string)
      ensures lineage == LineageFor(titles, parent, read)
    {
      if parent.None? {
        return "";
      }
      var above: Option<string> := None;
      if read {
        above := LineageOf(parent.value);
      }
      if above.Some? && above.value != "" {
        lineage := above.value + "/" + parent.value;
      } else {
        lineage := parent.value;
      }
    }

    /** The author upsert that counts a title. */
    method CountTitle(author: Pial)
      modifies `counts
      ensures counts == Added(old(counts), author)
    {
      if author in counts {
        counts := counts[author := counts[author] + 1];
      } else {
        counts := counts[author := 1];
      }
    }

    /** create_title: the insert, then the count, whose failure is only logged. */
    method CreateTitle(drawn: string, author: Pial, parent: Option<string>, read: bool, counted: bool)
      requires Valid() && NeverDrawn(titles, drawn)
      requires parent.Some? ==> IsId(parent.value) && parent.value != drawn
      modifies this
      ensures Valid()
      ensures titles == old(titles) + [NewTitle(old(titles), drawn, author, parent, read)]
      ensures counts == if counted then Added(old(counts), author) else old(counts)
    {
      CreateKeepsSound(titles, drawn, author, parent, read);
      var lineage := LineageUnder(parent, read);
      var depth := 0;
      if lineage != "" {
        depth := AsI16(|Split(lineage)|);
      }
      titles := titles + [Title(drawn, author, parent, lineage, depth, true, read)];
      if counted {
        CountTitle(author);
      }
    }

    /** tombstone_title on the row at k: only its author, and only once. */
    method TombstoneTitle(k: nat, caller: Pial, lowered: bool) returns (found: bool)
      requires Valid()
      modifies this
      ensures Valid()
      ensures found == Marks(old(titles), k, caller)
      ensures titles == if found then old(titles)[k := old(titles)[k].(live := false)] else old(titles)
      ensures counts == if found && lowered then Lowered(old(counts), caller) else old(counts)
    {
      found := k < |titles| && titles[k].live && titles[k].author == caller;
      if !found {
        return;
      }
      TombstoneKeepsSound(titles, k);
      titles := titles[k := titles[k].(live := false)];
      if lowered && caller in counts {
        var lower := counts[caller] - 1;
        if lower < 0 {
          lower := 0;
        }
        counts := counts[caller := lower];
      }
    }

    /** bootstrap_author: a new row starts at zero, an old one keeps its count. */
    method BootstrapAuthorRow(author: Pial)
      modifies `counts
      ensures counts == if author in old(counts) then old(counts) else old(counts)[author := 0]
    {
      if author !in counts {
        counts := counts[author := 0];
      }
    }
  }
}
