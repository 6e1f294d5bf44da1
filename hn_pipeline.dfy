/**
 * The item side of the Hacker News H-index tool: the record an item request
 * returns, the "valid story" rule of hn-index/app.js, the score-collecting
 * loop of `computeHIndex`, and the per-type grouping of `fetch_item_data` in
 * hn-index/script.py. The network is a parameter: `fetchItem` gives the
 * response the item endpoint returns for an identifier.
 */
module HackerNews {
  import opened Wrappers
  import opened HIndexReduction

  /** An item record. A missing `deleted` or `dead` marker reads as false; a
      missing `type` or `score` is None. */
  datatype Item = Item(deleted: bool, dead: bool, kind: Option<string>, score: Option<int>)

  /** What awaiting one item request yields: the parsed record, JSON `null`
      (the API's answer for an identifier with no item), or a rejected fetch. */
  datatype ItemResponse = Record(item: Item) | NullRecord | FetchFailed

  /** What awaiting the user request yields. `submitted` is None when the
      user record has no such field. */
  datatype UserResponse = UserRecord(submitted: Option<seq<int>>) | NullUser | UserFetchFailed

  /** What `computeHIndex` writes into the result container. */
  datatype Display = HIndexShown(h: nat) | ErrorShown(message: string)

  const FetchErrorMessage := "Error fetching user information. Please check the user ID."

  // ---------------------------------------------------------------------------
  // hn-index/app.js
  // ---------------------------------------------------------------------------

  /** `!item.deleted && item.type === "story" && !item.dead`. */
  predicate IsValidStory(item: Item) {
    !item.deleted && item.kind == Some("story") && !item.dead
  }

  /** `filterItems`: the valid stories, in their original order. */
  function FilterItems(items: seq<Item>): (r: seq<Item>)
    ensures |r| <= |items|
  {
    if items == [] then []
    else (if IsValidStory(items[0]) then [items[0]] else []) + FilterItems(items[1..])
  }

  /** `filterItems` keeps every valid story as often as it occurs and nothing else. */
  lemma {:induction false} FilterItemsExact(items: seq<Item>, x: Item)
    ensures multiset(FilterItems(items))[x] == if IsValidStory(x) then multiset(items)[x] else 0
  {
    if items != [] {
      FilterItemsExact(items[1..], x);
      assert items == [items[0]] + items[1..];
    }
  }

  /** Filtering distributes over concatenation, so relative order is kept. */
  lemma {:induction false} FilterItemsAppend(a: seq<Item>, b: seq<Item>)
    ensures FilterItems(a + b) == FilterItems(a) + FilterItems(b)
  {
    if a == [] {
      assert a + b == b;
    } else {
      var head := if IsValidStory(a[0]) then [a[0]] else [];
      assert (a + b)[0] == a[0];
      assert (a + b)[1..] == a[1..] + b;
      assert FilterItems(a + b) == head + FilterItems(a[1..] + b);
      FilterItemsAppend(a[1..], b);
      assert FilterItems(a) == head + FilterItems(a[1..]);
    }
  }

  /** The value `scores.push(itemData.score)` appends for a valid story. */
  function PushedScore(item: Item): JsScore {
    match item.score
    case Some(s) => Num(s)
    case None => Undefined
  }

  /** The `scores` array `computeHIndex` builds from a list of fetched items:
      one entry per item `filterItems` keeps, in list order. */
  function ScoresOf(items: seq<Item>): (r: seq<JsScore>)
    ensures |r| == |FilterItems(items)|
  {
    var kept := FilterItems(items);
    seq(|kept|, k requires 0 <= k < |kept| => PushedScore(kept[k]))
  }

  lemma ScoresOfSnoc(items: seq<Item>, x: Item)
    ensures ScoresOf(items + [x]) == ScoresOf(items) + (if IsValidStory(x) then [PushedScore(x)] else [])
  {
    FilterItemsAppend(items, [x]);
    assert FilterItems([x]) == (if IsValidStory(x) then [x] else []) + FilterItems([]);
    var kept := FilterItems(items);
    var more := FilterItems(items + [x]);
    assert more == kept + (if IsValidStory(x) then [x] else []);
    var lhs := ScoresOf(items + [x]);
    var rhs := ScoresOf(items) + (if IsValidStory(x) then [PushedScore(x)] else []);
    assert |lhs| == |rhs|;
    forall k | 0 <= k < |lhs| ensures lhs[k] == rhs[k] {
      assert lhs[k] == PushedScore(more[k]);
      if k < |kept| {
        assert more[k] == kept[k];
      }
    }
  }

  /** The number of leading responses that are records: the index of the
      first await that throws (a rejected fetch, or a `null` record whose
      `deleted` field is read). */
  function RecordPrefix(responses: seq<ItemResponse>): (n: nat)
    ensures n <= |responses|
    ensures forall k :: 0 <= k < n ==> responses[k].Record?
    ensures n < |responses| ==> !responses[n].Record?
  {
    if responses == [] || !responses[0].Record? then 0
    else 1 + RecordPrefix(responses[1..])
  }

  function ItemsOf(responses: seq<ItemResponse>): (items: seq<Item>)
    requires forall k :: 0 <= k < |responses| ==> responses[k].Record?
  {
    seq(|responses|, k requires 0 <= k < |responses| => responses[k].item)
  }

  /** The loop at lines 69-83 of app.js over the awaited responses, in index
      order. `fetchedCount` rises by one per record, including a `null` one,
      before the item is inspected; `progress` lists every `fetchedCount`
      handed to `updateProgressBar`. Any throwing await ends the run, which
      is then reported as None. */
  method CollectScores(responses: seq<ItemResponse>)
    returns (scores: Option<seq<JsScore>>, fetchedCount: nat, progress: seq<nat>)
    ensures |progress| == fetchedCount
    ensures forall k :: 0 <= k < |progress| ==> progress[k] == k + 1
    ensures scores.Some? <==> RecordPrefix(responses) == |responses|
    ensures scores.Some? ==> fetchedCount == |responses| && scores.value == ScoresOf(ItemsOf(responses))
    ensures scores.None? ==>
      fetchedCount == RecordPrefix(responses) + (if responses[RecordPrefix(responses)].NullRecord? then 1 else 0)
  {
    var list: seq<JsScore> := [];
    fetchedCount := 0;
    progress := [];
    var i := 0;
    while i < |responses|
      invariant 0 <= i <= |responses|
      invariant forall k :: 0 <= k < i ==> responses[k].Record?
      invariant fetchedCount == i
      invariant |progress| == i && forall k :: 0 <= k < i ==> progress[k] == k + 1
      invariant list == ScoresOf(ItemsOf(responses[..i]))
    {
      match responses[i]
      case FetchFailed =>
        return None, fetchedCount, progress;
      case NullRecord =>
        fetchedCount := fetchedCount + 1;
        progress := progress + [fetchedCount];
        return None, fetchedCount, progress;
      case Record(item) =>
        fetchedCount := fetchedCount + 1;
        progress := progress + [fetchedCount];
        assert ItemsOf(responses[..i + 1]) == ItemsOf(responses[..i]) + [item];
        ScoresOfSnoc(ItemsOf(responses[..i]), item);
        if IsValidStory(item) {
          list := list + [PushedScore(item)];
        }
      i := i + 1;
    }
    assert responses[..i] == responses;
    return Some(list), fetchedCount, progress;
  }

  /** The responses of the item requests for the identifiers, in list order. */
  function Responses(ids: seq<int>, fetchItem: int -> ItemResponse): (r: seq<ItemResponse>)
    ensures |r| == |ids|
  {
    seq(|ids|, k requires 0 <= k < |ids| => fetchItem(ids[k]))
  }

  /** What `computeHIndex` shows for a user, stated with the Python `h_index`:
      the H-index of the numeric scores of the valid stories when every request
      succeeds, the single error message otherwise. */
  ghost function ExpectedDisplay(user: UserResponse, fetchItem: int -> ItemResponse): Display {
    if user.UserRecord? && user.submitted.Some?
       && RecordPrefix(Responses(user.submitted.value, fetchItem)) == |user.submitted.value|
    then HIndexShown(HIndex(Present(ScoresOf(ItemsOf(Responses(user.submitted.value, fetchItem))))))
    else ErrorShown(FetchErrorMessage)
  }

  /** `computeHIndex`: resolve the user, await every item, reduce. A user that
      cannot be fetched, is `null`, or has no `submitted` list, and any item
      request that throws, abort the whole run with one message: there is no
      per-item recovery. */
  method ComputeHIndex(user: UserResponse, fetchItem: int -> ItemResponse) returns (shown: Display)
    ensures shown == ExpectedDisplay(user, fetchItem)
    ensures shown.HIndexShown? ==> shown.h <= |user.submitted.value|
  {
    if !user.UserRecord? || user.submitted.None? {
      return ErrorShown(FetchErrorMessage);
    }
    var submittedItems := user.submitted.value;
    var responses := Responses(submittedItems, fetchItem);
    var scores, fetchedCount, progress := CollectScores(responses);
    if scores.None? {
      return ErrorShown(FetchErrorMessage);
    }
    var a := new JsScore[|scores.value|](k requires 0 <= k < |scores.value| => scores.value[k]);
    assert a[..] == scores.value;
    var hIndex := CalculateHIndex(a);
    return HIndexShown(hIndex);
  }

  // ---------------------------------------------------------------------------
  // hn-index/script.py
  // ---------------------------------------------------------------------------

  /** The condition at lines 16-21 of script.py, with the score it records:
      not deleted, not dead, a truthy `type` (a non-empty string) and a truthy
      `score` (a non-zero number). */
  function Recorded(item: Item): Option<(string, int)> {
    if !item.deleted && !item.dead && item.kind.Some? && item.kind.value != ""
       && item.score.Some? && item.score.value != 0
    then Some((item.kind.value, item.score.value))
    else None
  }

  /** Python records a score under "story" exactly for the items app.js calls
      valid stories whose score is present and non-zero; app.js also pushes the
      stories Python leaves out (score 0, or no score at all, as `undefined`). */
  lemma RecordedStoryIffValid(item: Item, s: int)
    ensures Recorded(item) == Some(("story", s))
        <==> IsValidStory(item) && PushedScore(item) == Num(s) && s != 0
  {
  }

  /** A `defaultdict(list)` read: a key never appended to reads as the empty list. */
  function Lookup(m: map<string, seq<int>>, t: string): seq<int> {
    if t in m then m[t] else []
  }

  /** What `fetch_item_data` appends to the list of type t for one item: its
      score when it is recorded under t, nothing otherwise. */
  function Appended(item: Item, t: string): seq<int> {
    if Recorded(item).Some? && Recorded(item).value.0 == t then [Recorded(item).value.1] else []
  }

  /** The list for type t after a sequential pass over the items: the
      recorded scores of that type, in item order. */
  function ScoresUnder(items: seq<Item>, t: string): seq<int> {
    if items == [] then []
    else
      var last := items[|items| - 1];
      ScoresUnder(items[..|items| - 1], t) + Appended(last, t)
  }

  /** The shared state of `get_user_scores`: the `scores` defaultdict and the
      count of the `tqdm` progress bar. */
  class ScoreCollector {
    var scores: map<string, seq<int>>
    var progress: nat

    /** Only keys that were appended to exist, and their lists are non-empty. */
    ghost predicate Valid()
      reads this
    {
      forall t :: t in scores ==> scores[t] != []
    }

    constructor ()
      ensures Valid() && scores == map[] && progress == 0
    {
      scores := map[];
      progress := 0;
    }

    /** `fetch_item_data` for one awaited response: a `null` record or a failed
        request raises before anything changes (reported as false); otherwise
        the score, if recorded, is appended to its own type's list only, and
        the progress bar advances by exactly one either way. */
    method FetchItemData(response: ItemResponse) returns (ok: bool)
      requires Valid()
      modifies this
      ensures Valid()
      ensures ok <==> response.Record?
      ensures !ok ==> scores == old(scores) && progress == old(progress)
      ensures ok ==> progress == old(progress) + 1
      ensures ok ==> forall t :: Lookup(scores, t) == Lookup(old(scores), t) + Appended(response.item, t)
      ensures ok ==> forall t :: (t in scores <==> t in old(scores) || Appended(response.item, t) != [])
    {
      if !response.Record? {
        return false;
      }
      var item := response.item;
      var r := Recorded(item);
      if r.Some? {
        var (t, s) := r.value;
        scores := scores[t := Lookup(scores, t) + [s]];
      }
      progress := progress + 1;
      return true;
    }
  }

  lemma ScoresUnderSnoc(items: seq<Item>, x: Item, t: string)
    ensures ScoresUnder(items + [x], t) == ScoresUnder(items, t) + Appended(x, t)
  {
    assert (items + [x])[..|items|] == items;
  }

  /** `get_user_scores` over responses taken in list order: a user that
      cannot be fetched, is `null` or lacks `submitted`, and any item
      request that raises, fail the whole call. Otherwise each type's list
      holds that type's recorded scores in item order, a type is a key
      exactly when it has a score, and the progress count is the number of
      items. */
  method GetUserScores(user: UserResponse, fetchItem: int -> ItemResponse)
    returns (result: Option<map<string, seq<int>>>, progress: nat)
    ensures result.Some? <==>
      user.UserRecord? && user.submitted.Some?
      && RecordPrefix(Responses(user.submitted.value, fetchItem)) == |user.submitted.value|
    ensures result.Some? ==> progress == |user.submitted.value|
    ensures result.Some? ==> forall t ::
      Lookup(result.value, t) == ScoresUnder(ItemsOf(Responses(user.submitted.value, fetchItem)), t)
    ensures result.Some? ==> forall t :: t in result.value ==> result.value[t] != []
  {
    if !user.UserRecord? || user.submitted.None? {
      return None, 0;
    }
    var responses := Responses(user.submitted.value, fetchItem);
    var collector := new ScoreCollector();
    var i := 0;
    while i < |responses|
      invariant 0 <= i <= |responses|
      invariant forall k :: 0 <= k < i ==> responses[k].Record?
      invariant collector.Valid()
      invariant collector.progress == i
      invariant forall t :: Lookup(collector.scores, t) == ScoresUnder(ItemsOf(responses[..i]), t)
    {
      var ok := collector.FetchItemData(responses[i]);
      if !ok {
        return None, collector.progress;
      }
      assert ItemsOf(responses[..i + 1]) == ItemsOf(responses[..i]) + [responses[i].item];
      forall t ensures Lookup(collector.scores, t) == ScoresUnder(ItemsOf(responses[..i + 1]), t) {
        ScoresUnderSnoc(ItemsOf(responses[..i]), responses[i].item, t);
      }
      i := i + 1;
    }
    assert responses[..i] == responses;
    return Some(collector.scores), collector.progress;
  }

  /** The "story" list of script.py is the app.js score array with the
      `undefined` entries and the zeros taken out. */
  lemma {:induction false} StoryScoresAreJsScores(items: seq<Item>)
    ensures ScoresUnder(items, "story") == DropZeros(Present(ScoresOf(items)))
  {
    if items != [] {
      var init := items[..|items| - 1];
      var x := items[|items| - 1];
      assert init + [x] == items;
      StoryScoresAreJsScores(init);
      ScoresOfSnoc(init, x);
      var pushed := if IsValidStory(x) then [PushedScore(x)] else [];
      PresentAppend(ScoresOf(init), pushed);
      DropZerosAppend(Present(ScoresOf(init)), Present(pushed));
      assert Appended(x, "story") == DropZeros(Present(pushed)) by {
        if IsValidStory(x) {
          assert pushed[1..] == [];
          assert Present([]) == [] && DropZeros([]) == [];
        }
      }
    }
  }

  /** The lines at 60-62 of script.py print one H-index per key of the
      result. Given the result `get_user_scores` returns (as GetUserScores
      states it), the script prints a "story" line exactly when some valid
      story has a non-zero score, and that line shows the page's H-index;
      when it prints none, the page shows 0. Neither stories without a score
      nor stories scoring zero change the number. */
  lemma ScriptAgreesWithPage(user: UserResponse, fetchItem: int -> ItemResponse, result: map<string, seq<int>>)
    requires ExpectedDisplay(user, fetchItem).HIndexShown?
    requires forall t :: Lookup(result, t) == ScoresUnder(ItemsOf(Responses(user.submitted.value, fetchItem)), t)
    requires forall t :: t in result ==> result[t] != []
    ensures "story" in result <==>
      DropZeros(Present(ScoresOf(ItemsOf(Responses(user.submitted.value, fetchItem))))) != []
    ensures "story" in result ==> HIndex(result["story"]) == ExpectedDisplay(user, fetchItem).h
    ensures "story" !in result ==> ExpectedDisplay(user, fetchItem).h == 0
  {
    var items := ItemsOf(Responses(user.submitted.value, fetchItem));
    assert ExpectedDisplay(user, fetchItem).h == HIndex(Present(ScoresOf(items)));
    assert Lookup(result, "story") == ScoresUnder(items, "story");
    StoryLineAgrees(items, result);
  }

  /** The "story" entry of a result holding the scripts' lists for items,
      against the page's H-index of those items. */
  lemma StoryLineAgrees(items: seq<Item>, result: map<string, seq<int>>)
    requires Lookup(result, "story") == ScoresUnder(items, "story")
    requires "story" in result ==> result["story"] != []
    ensures "story" in result <==> DropZeros(Present(ScoresOf(items))) != []
    ensures "story" in result ==> HIndex(result["story"]) == HIndex(Present(ScoresOf(items)))
    ensures "story" !in result ==> HIndex(Present(ScoresOf(items))) == 0
  {
    var p := Present(ScoresOf(items));
    StoryScoresAreJsScores(items);
    HIndexIgnoresZeros(p);
    assert Lookup(result, "story") == DropZeros(p);
    if "story" !in result {
      HIndexOfEmpty();
    }
  }
}
