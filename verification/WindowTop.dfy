/** When the window's list holds the largest files of the whole index, although a directory sends only a few. */
module WindowTops {
  import opened Leaderboards
  import opened Options
  import opened Sequences
  import opened StoreModel
  import opened Summaries

  const LARGEST_PER_DIRECTORY: nat := 8

  // -- From the bridge's list to the window's candidates ------------------------------------------------

  /** The bridge keeps its list smallest first and sends it reversed, which is the order the window relies on. */
  lemma {:induction false} ReversedDescends<T>(list: seq<Ranked<T>>)
    requires Ascending(list)
    ensures Descending(Reversed(list))
  {
    if list != [] {
      TailAscends(list);
      ReversedTail(list);
      ReversedDescends(list[1..]);
      ReversedMembers(list[1..]);
      var rest := Reversed(list[1..]);
      var all := rest + [list[0]];
      forall i, j | 0 <= i < j < |all| ensures NotAbove(all[j], all[i]) {
        if j < |rest| {
          assert NotAbove(rest[j], rest[i]);
        } else {
          assert rest[i] in multiset(rest) && rest[i] in multiset(list[1..]) && rest[i] in list;
        }
      }
    }
  }

  // -- All directories ----------------------------------------------------------------------------------

  function Sent(rows: nat -> seq<SizedRow>, id: nat): seq<Ranked<File>> {
    Summarize(rows(id), File(id, 0), LARGEST_PER_DIRECTORY, NO_SUMMARY).largest
  }

  lemma SentInOrder(rows: nat -> seq<SizedRow>, id: nat)
    ensures Descending(Reversed(Sent(rows, id))) && multiset(Reversed(Sent(rows, id))) == multiset(Sent(rows, id))
  {
    SummaryIsExact(rows(id), id, LARGEST_PER_DIRECTORY);
    ReversedDescends(Sent(rows, id));
    ReversedMembers(Sent(rows, id));
  }

  /** The non-empty regular files of all directories. */
  function AllFiles(ids: seq<nat>, rows: nat -> seq<SizedRow>): multiset<Ranked<File>> {
    if ids == [] then multiset{}
    else AllFiles(ids[..|ids| - 1], rows) + NonEmpty(rows(ids[|ids| - 1]), File(ids[|ids| - 1], 0))
  }

  /** Those of them that the summaries list. */
  function AllSent(ids: seq<nat>, rows: nat -> seq<SizedRow>): multiset<Ranked<File>> {
    if ids == [] then multiset{} else AllSent(ids[..|ids| - 1], rows) + multiset(Sent(rows, ids[|ids| - 1]))
  }

  /** The window merges what each directory sends, in the order of the journal. */
  method MergeAll(ids: seq<nat>, rows: nat -> seq<SizedRow>) returns (top: TopFiles<File>)
    ensures top.Valid() && top.offered == AllSent(ids, rows)
  {
    top := new TopFiles<File>();
    for n := 0 to |ids|
      invariant fresh(top) && top.Valid() && top.offered == AllSent(ids[..n], rows)
    {
      SentInOrder(rows, ids[n]);
      assert ids[..n + 1][..n] == ids[..n];
      top.MergeDirectory(Reversed(Sent(rows, ids[n])));
    }
    assert ids[..|ids|] == ids;
  }

  lemma {:induction false} SentAreFiles(ids: seq<nat>, rows: nat -> seq<SizedRow>)
    ensures AllSent(ids, rows) <= AllFiles(ids, rows)
  {
    if ids != [] {
      SentAreFiles(ids[..|ids| - 1], rows);
      SummaryIsExact(rows(ids[|ids| - 1]), ids[|ids| - 1], LARGEST_PER_DIRECTORY);
    }
  }

  // -- The condition ------------------------------------------------------------------------------------

  /** `limit` of the candidates are at least as large. */
  ghost predicate Outranked<T(!new)>(limit: nat, candidates: multiset<Ranked<T>>, size: nat) {
    exists winners: seq<Ranked<T>> :: AreWinners(limit, candidates, size, winners)
  }

  ghost predicate AreWinners<T(!new)>(limit: nat, candidates: multiset<Ranked<T>>, size: nat, winners: seq<Ranked<T>>) {
    |winners| == limit && multiset(winners) <= candidates && forall k :: k in winners ==> size <= k.size
  }

  /** Every file that was not sent is outranked by candidates. */
  ghost predicate NoneMissing<T(!new)>(limit: nat, all: multiset<Ranked<T>>, candidates: multiset<Ranked<T>>) {
    forall out :: out in all - candidates ==> Outranked(limit, candidates, out.size)
  }

  /** If a file is outranked, a candidate that is not kept shows that everything kept is as large. */
  lemma OutrankedIsTurnedAway<T(!new)>(limit: nat, candidates: multiset<Ranked<T>>, kept: seq<Ranked<T>>, out: Ranked<T>, k: Ranked<T>)
    requires IsTop(limit, candidates, kept) && Outranked(limit, candidates, out.size) && k in kept
    ensures out.size <= k.size
  {
    var winners :| AreWinners(limit, candidates, out.size, winners);
    if k !in winners {
      assert k in multiset(kept) && k !in multiset(winners);
      var w := SomeLeft(multiset(winners), multiset(kept), k);
      assert w in winners && IsTurnedAway(w, k);
    }
  }

  lemma SizeOfRest<T>(part: multiset<Ranked<T>>, whole: multiset<Ranked<T>>)
    requires part <= whole
    ensures |whole - part| == |whole| - |part|
  {
    assert whole == part + (whole - part);
  }

  /** As many winners as there are kept, one of which is no winner: some winner is not kept. */
  lemma SomeLeft<T>(winners: multiset<Ranked<T>>, kept: multiset<Ranked<T>>, k: Ranked<T>) returns (w: Ranked<T>)
    requires |kept| <= |winners| && k in kept && k !in winners
    ensures w in winners && winners[w] > kept[w]
  {
    assert k in kept - winners;
    if winners <= kept { SizeOfRest(winners, kept); }
    w :| w in winners && winners[w] > kept[w];
  }

  /** The top of the candidates is the top of everything exactly if no file was missing from the candidates. */
  lemma TopOfAll<T(!new)>(limit: nat, all: multiset<Ranked<T>>, candidates: multiset<Ranked<T>>, kept: seq<Ranked<T>>)
    requires candidates <= all && IsTop(limit, candidates, kept)
    ensures IsTop(limit, all, kept) <==> NoneMissing(limit, all, candidates)
  {
    if IsTop(limit, all, kept) {
      forall out | out in all - candidates ensures Outranked(limit, candidates, out.size) {
        assert out in all - multiset(kept);
        assert forall k :: k in kept ==> IsTurnedAway(out, k);
        assert AreWinners(limit, candidates, out.size, kept);
      }
    }
    if NoneMissing(limit, all, candidates) {
      forall out, k | out in all - multiset(kept) && k in kept ensures IsTurnedAway(out, k) {
        if out in candidates - multiset(kept) {
          assert IsTurnedAway(out, k);
        } else {
          assert out in all - candidates;
          OutrankedIsTurnedAway(limit, candidates, kept, out, k);
        }
      }
      if all - multiset(kept) != multiset{} && |kept| < limit { FullIfMissing(limit, all, candidates, kept); }
    }
  }

  lemma FullIfMissing<T(!new)>(limit: nat, all: multiset<Ranked<T>>, candidates: multiset<Ranked<T>>, kept: seq<Ranked<T>>)
    requires candidates <= all && IsTop(limit, candidates, kept) && NoneMissing(limit, all, candidates)
    requires all - multiset(kept) != multiset{}
    ensures |kept| == limit
  {
    if candidates - multiset(kept) == multiset{} {
      assert candidates == multiset(kept);
      var out :| out in all - multiset(kept);
      assert out in all - candidates;
      var winners :| AreWinners(limit, candidates, out.size, winners);
      SizeOfRest(multiset(winners), candidates);
    }
  }

  /** The window's list is the 100 largest files of the index exactly if 100 candidates outrank each file not sent. */
  lemma WindowTopIsExact(ids: seq<nat>, rows: nat -> seq<SizedRow>, files: seq<Ranked<File>>)
    requires IsTop(TOP_LIMIT, AllSent(ids, rows), files)
    ensures IsTop(TOP_LIMIT, AllFiles(ids, rows), files) <==> NoneMissing(TOP_LIMIT, AllFiles(ids, rows), AllSent(ids, rows))
  {
    SentAreFiles(ids, rows);
    TopOfAll(TOP_LIMIT, AllFiles(ids, rows), AllSent(ids, rows), files);
  }

  // -- Where it holds, and where it does not ------------------------------------------------------------

  ghost predicate SendsAll(rows: nat -> seq<SizedRow>, id: nat) {
    |NonEmpty(rows(id), File(id, 0))| <= LARGEST_PER_DIRECTORY
  }

  lemma SentIfFew(rows: nat -> seq<SizedRow>, id: nat)
    requires SendsAll(rows, id)
    ensures multiset(Sent(rows, id)) == NonEmpty(rows(id), File(id, 0))
  {
    SummaryIsExact(rows(id), id, LARGEST_PER_DIRECTORY);
    var all, sent := NonEmpty(rows(id), File(id, 0)), multiset(Sent(rows, id));
    assert |all - sent| == |all| - |sent|;
  }

  /** Directories with at most eight files each lose none. */
  lemma {:induction false} FewFilesAreExact(ids: seq<nat>, rows: nat -> seq<SizedRow>)
    requires forall i :: 0 <= i < |ids| ==> SendsAll(rows, ids[i])
    ensures AllSent(ids, rows) == AllFiles(ids, rows) && NoneMissing(TOP_LIMIT, AllFiles(ids, rows), AllSent(ids, rows))
  {
    if ids != [] {
      FewFilesAreExact(ids[..|ids| - 1], rows);
      SentIfFew(rows, ids[|ids| - 1]);
    }
  }

  function SameRows(n: nat): seq<SizedRow> {
    seq(n, _ => SizedRow(Some(REGULAR_CODE), Some(1)))
  }

  lemma {:induction false} CountSameRows(n: nat, file: File)
    ensures |NonEmpty(SameRows(n), file)| == n
  {
    if n > 0 {
      assert SameRows(n)[1..] == SameRows(n - 1);
      CountSameRows(n - 1, NextFile(file));
    }
  }

  /** More files than a directory sends are missing from a list that has room for them. */
  lemma TooManyFiles(rows: nat -> seq<SizedRow>, id: nat, files: seq<Ranked<File>>)
    requires !SendsAll(rows, id) && |NonEmpty(rows(id), File(id, 0))| <= TOP_LIMIT
    requires IsTop(TOP_LIMIT, AllSent([id], rows), files)
    ensures !IsTop(TOP_LIMIT, AllFiles([id], rows), files)
  {
    OneDirectory(rows, id);
    SummaryIsExact(rows(id), id, LARGEST_PER_DIRECTORY);
    var all, sent := AllFiles([id], rows), AllSent([id], rows);
    SizeOfRest(multiset(files), sent);
    if multiset(files) <= all { SizeOfRest(multiset(files), all); }
  }

  lemma OneDirectory(rows: nat -> seq<SizedRow>, id: nat)
    ensures AllFiles([id], rows) == NonEmpty(rows(id), File(id, 0)) && AllSent([id], rows) == multiset(Sent(rows, id))
  {
    assert [id][..0] == [];
  }

  function NineRows(id: nat): seq<SizedRow> {
    SameRows(9)
  }

  /** One directory with nine files of a byte each: the window lists eight of them. */
  lemma NineFilesAreTooMany(files: seq<Ranked<File>>)
    requires IsTop(TOP_LIMIT, AllSent([ROOT], NineRows), files)
    ensures !IsTop(TOP_LIMIT, AllFiles([ROOT], NineRows), files)
  {
    CountSameRows(9, File(ROOT, 0));
    TooManyFiles(NineRows, ROOT, files);
  }
}
