/** The merge step of `BookSearchViewModel.searchWithRelatedKeywords`: one
    catalog search per related keyword, each result filtered by publisher and
    stripped of books already in the primary list, the survivors appended to
    `additionalBooks` in the order the searches complete. The concurrent
    callbacks are modelled as a sequential fold over the outcomes in
    completion order. */
module FanOut {
  import opened Wrappers
  import opened Seqs
  import opened Text
  import opened Books

  /** Why a catalog search failed; the reason is never inspected. */
  datatype ApiError = ApiError(reason: string)

  /** What one `searchBooks` call reports. */
  type Outcome = Result<seq<Book>, ApiError>

  /** The books one completed keyword search adds: nothing on failure;
      otherwise the academic records whose id is not in the primary list,
      in catalog order. */
  function NewBooks(primary: seq<Book>, outcome: Outcome, allowList: seq<string>): (r: seq<Book>)
    ensures outcome.Failure? ==> r == []
    ensures outcome.Success? ==> IsSubsequence(r, outcome.value)
    ensures forall b :: b in r <==>
              (outcome.Success? && b in outcome.value && IsAcademic(b, allowList) && !HasId(primary, b.id))
    ensures forall b :: multiset(r)[b] ==
              if outcome.Success? && IsAcademic(b, allowList) && !HasId(primary, b.id)
              then multiset(outcome.value)[b] else 0
  {
    match outcome
    case Failure(_) => []
    case Success(raw) =>
      var academic := FilterByPublishers(raw, allowList);
      var r := Filter((b: Book) => !HasId(primary, b.id), academic);
      SubsequenceTransitive(r, academic, raw);
      r
  }

  /** `NewBooks` for a fixed primary list and allow-list, as one function
      value, so that every use names the same contribution. */
  function Contribution(primary: seq<Book>, allowList: seq<string>): Outcome -> seq<Book>
  {
    o => NewBooks(primary, o, allowList)
  }

  /** `b` was returned by one of the successful searches in `batches`. */
  predicate FoundBySome(b: Book, batches: seq<Outcome>)
  {
    exists j :: 0 <= j < |batches| && batches[j].Success? && b in batches[j].value
  }

  /** `additionalBooks` once every search in `batches` (completion order)
      has reported. */
  function Additions(primary: seq<Book>, batches: seq<Outcome>, allowList: seq<string>): (r: seq<Book>)
    ensures forall b :: b in r <==> IsAcademic(b, allowList) && !HasId(primary, b.id) && FoundBySome(b, batches)
  {
    FlatMap(Contribution(primary, allowList), batches)
  }

  /** The order in which the concurrent searches complete changes the order
      of `additionalBooks` but not which books it holds, nor how often. */
  lemma AdditionsCompletionOrder(primary: seq<Book>, xs: seq<Outcome>, ys: seq<Outcome>, allowList: seq<string>)
    requires multiset(xs) == multiset(ys)
    ensures multiset(Additions(primary, xs, allowList)) == multiset(Additions(primary, ys, allowList))
  {
    FlatMapPermutation(Contribution(primary, allowList), xs, ys);
  }

  /** Failed searches contribute nothing: dropping them leaves the merge
      unchanged. */
  lemma FailuresContributeNothing(primary: seq<Book>, batches: seq<Outcome>, allowList: seq<string>)
    ensures Additions(primary, batches, allowList)
            == Additions(primary, Filter((o: Outcome) => o.Success?, batches), allowList)
  {
    FlatMapSkipsEmpty(Contribution(primary, allowList), (o: Outcome) => o.Success?, batches);
  }

  /** The final `books`: the primary list untouched, then the additions. */
  function Merge(primary: seq<Book>, batches: seq<Outcome>, allowList: seq<string>): (r: seq<Book>)
    ensures |r| >= |primary| && r[..|primary|] == primary
    ensures forall b :: b in r[|primary|..] <==>
              IsAcademic(b, allowList) && !HasId(primary, b.id) && FoundBySome(b, batches)
  {
    var extra := Additions(primary, batches, allowList);
    assert (primary + extra)[|primary|..] == extra;
    primary + extra
  }

  /** As written, two keyword searches that both return the same new book
      append it twice: the merged list repeats an id although the primary
      list did not. */
  lemma MergeRepeatsSharedSecondaryBook()
    ensures
      var allowList := ["岩波書店"];
      var primary := [Book("p1", Some("哲学入門"), None, Some("岩波書店"), None)];
      var shared := Book("s1", Some("倫理学"), None, Some("岩波書店"), None);
      UniqueIds(primary) && !UniqueIds(Merge(primary, [Success([shared]), Success([shared])], allowList))
  {
    var allowList := ["岩波書店"];
    var primary := [Book("p1", Some("哲学入門"), None, Some("岩波書店"), None)];
    var shared := Book("s1", Some("倫理学"), None, Some("岩波書店"), None);
    assert Contains("岩波書店", "岩波書店") by {
      assert OccursAt("岩波書店", "岩波書店", 0);
    }
    assert IsAcademic(shared, allowList);
    assert !HasId(primary, shared.id);
    var f := Contribution(primary, allowList);
    var ok: Outcome := Success([shared]);
    assert NewBooks(primary, ok, allowList) == [shared] by {
      var nb := NewBooks(primary, ok, allowList);
      assert shared in nb;
      assert IsSubsequence(nb, [shared]);
    }
    FlatMapSnoc(f, [ok], ok);
    FlatMapSnoc(f, [], ok);
    assert [ok] + [ok] == [ok, ok];
    var merged := Merge(primary, [ok, ok], allowList);
    assert merged == primary + [shared, shared];
    assert merged[1].id == merged[2].id;
  }

  /** Appends each candidate whose id is not yet in `acc`, checking against
      everything accepted so far, including earlier candidates. */
  function AppendUnseen(acc: seq<Book>, candidates: seq<Book>): (r: seq<Book>)
    ensures |r| >= |acc| && r[..|acc|] == acc
    ensures forall i :: |acc| <= i < |r| ==> r[i] in candidates
    ensures forall c :: c in candidates ==> HasId(r, c.id)
    decreases |candidates|
  {
    if |candidates| == 0 then acc
    else
      var c := candidates[0];
      var next := if HasId(acc, c.id) then acc else acc + [c];
      assert HasId(next, c.id) by {
        if !HasId(acc, c.id) {
          assert next[|acc|] == c;
        }
      }
      var r := AppendUnseen(next, candidates[1..]);
      assert r[..|acc|] == next[..|acc|] == acc;
      assert HasId(r, c.id) by {
        var k :| 0 <= k < |next| && next[k].id == c.id;
        assert r[k] == next[k];
      }
      assert forall i :: |next| <= i < |r| ==> r[i] in candidates by {
        forall i | |next| <= i < |r| ensures r[i] in candidates {
          assert r[i] in candidates[1..];
        }
      }
      r
  }

  /** An appended book's id was in neither `acc` nor the books appended
      before it. */
  lemma {:induction false} AppendUnseenFresh(acc: seq<Book>, candidates: seq<Book>, i: int)
    requires |acc| <= i < |AppendUnseen(acc, candidates)|
    ensures var r := AppendUnseen(acc, candidates);
            !HasId(acc, r[i].id) && !HasId(r[..i], r[i].id)
    decreases |candidates|
  {
    var r := AppendUnseen(acc, candidates);
    var c := candidates[0];
    var next := if HasId(acc, c.id) then acc else acc + [c];
    assert r == AppendUnseen(next, candidates[1..]);
    assert r[..|next|] == next;
    if i < |next| {
      assert next == acc + [c] && i == |acc|;
      assert r[..i] == acc by { assert r[..i] == next[..i]; }
      assert r[i] == next[i] == c;
    } else {
      AppendUnseenFresh(next, candidates[1..], i);
      assert next[..|acc|] == acc;
      NoIdInPrefix(acc, next, r[i].id);
    }
  }

  /** The corrected append keeps unique ids unique. */
  lemma AppendUnseenKeepsIdsUnique(acc: seq<Book>, candidates: seq<Book>)
    requires UniqueIds(acc)
    ensures UniqueIds(AppendUnseen(acc, candidates))
  {
    var r := AppendUnseen(acc, candidates);
    forall i, j | 0 <= i < j < |r|
      ensures r[i].id != r[j].id
    {
      if j < |acc| {
        assert r[i] == acc[i] && r[j] == acc[j];
      } else {
        AppendUnseenFresh(acc, candidates, j);
        assert r[..j][i] == r[i];
      }
    }
  }

  /** The merge as evidently intended: a secondary book is dropped when its
      id is already in the primary list or was accepted earlier. */
  function MergeUnique(primary: seq<Book>, batches: seq<Outcome>, allowList: seq<string>): (r: seq<Book>)
    ensures |r| >= |primary| && r[..|primary|] == primary
    decreases |batches|
  {
    if |batches| == 0 then primary
    else
      var acc := MergeUnique(primary, batches[..|batches| - 1], allowList);
      var r := AppendUnseen(acc, Found(batches[|batches| - 1], allowList));
      assert r[..|primary|] == acc[..|primary|];
      r
  }

  /** The academic records of a successful search; nothing for a failed one. */
  function Found(outcome: Outcome, allowList: seq<string>): (r: seq<Book>)
    ensures forall b :: b in r <==> outcome.Success? && b in outcome.value && IsAcademic(b, allowList)
  {
    if outcome.Success? then FilterByPublishers(outcome.value, allowList) else []
  }

  /** With the corrected merge, ids stay unique when the primary ids are. */
  lemma {:induction false} MergeUniqueKeepsIdsUnique(primary: seq<Book>, batches: seq<Outcome>, allowList: seq<string>)
    requires UniqueIds(primary)
    ensures UniqueIds(MergeUnique(primary, batches, allowList))
    decreases |batches|
  {
    if |batches| > 0 {
      MergeUniqueKeepsIdsUnique(primary, batches[..|batches| - 1], allowList);
      AppendUnseenKeepsIdsUnique(MergeUnique(primary, batches[..|batches| - 1], allowList),
                                 Found(batches[|batches| - 1], allowList));
    }
  }

  /** Every appended book is academic and was returned by a successful search. */
  lemma {:induction false} MergeUniqueSound(primary: seq<Book>, batches: seq<Outcome>, allowList: seq<string>)
    ensures forall b :: b in MergeUnique(primary, batches, allowList)[|primary|..] ==>
              IsAcademic(b, allowList) && FoundBySome(b, batches) && !HasId(primary, b.id)
    decreases |batches|
  {
    if |batches| > 0 {
      var init := batches[..|batches| - 1];
      var last := batches[|batches| - 1];
      var acc := MergeUnique(primary, init, allowList);
      var r := MergeUnique(primary, batches, allowList);
      MergeUniqueSound(primary, init, allowList);
      forall b | b in r[|primary|..]
        ensures IsAcademic(b, allowList) && FoundBySome(b, batches) && !HasId(primary, b.id)
      {
        var i :| |primary| <= i < |r| && r[i] == b;
        if i < |acc| {
          assert b == acc[i] && acc[i] in acc[|primary|..];
          var j :| 0 <= j < |init| && init[j].Success? && b in init[j].value;
          assert batches[j] == init[j];
        } else {
          assert b in Found(last, allowList);
          assert batches[|batches| - 1] == last;
          AppendUnseenFresh(acc, Found(last, allowList), i);
          NoIdInPrefix(primary, acc, b.id);
        }
      }
    }
  }

  /** No academic record a successful search returned is lost: some book
      with its id is in the merged list. */
  lemma {:induction false} MergeUniqueComplete(primary: seq<Book>, batches: seq<Outcome>, allowList: seq<string>, b: Book)
    requires IsAcademic(b, allowList) && FoundBySome(b, batches)
    ensures HasId(MergeUnique(primary, batches, allowList), b.id)
    decreases |batches|
  {
    var init := batches[..|batches| - 1];
    var last := batches[|batches| - 1];
    var acc := MergeUnique(primary, init, allowList);
    var r := MergeUnique(primary, batches, allowList);
    var j :| 0 <= j < |batches| && batches[j].Success? && b in batches[j].value;
    assert r == AppendUnseen(acc, Found(last, allowList));
    if j < |init| {
      assert init[j] == batches[j];
      MergeUniqueComplete(primary, init, allowList, b);
      HasIdInExtension(acc, r, b.id);
    } else {
      assert b in Found(last, allowList);
    }
  }
}
