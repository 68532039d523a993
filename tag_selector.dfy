/**
 * The list logic of the tag selector in src/components/tag-selector.tsx:
 * toggling and removing selected tags, the list of tags offered for a query,
 * the check mark and the summary label.
 */
module TagSelector {
  import opened Wrappers
  import opened Strings

  /** An `EggheadTag`: its id, `fields.label` (`labelText`) and `fields.popularity_order`. */
  datatype Tag = Tag(id: string, labelText: string, popularity: Option<int>)

  // ---------------------------------------------------------------------------
  // Selection
  // ---------------------------------------------------------------------------

  /** `tags.some((t) => t.id === id)`. */
  predicate HasId(tags: seq<Tag>, id: string) {
    exists i :: 0 <= i < |tags| && tags[i].id == id
  }

  /** `tags.filter((t) => t.id !== id)`. */
  function RemoveId(tags: seq<Tag>, id: string): (r: seq<Tag>)
    ensures forall t :: t in r <==> t in tags && t.id != id
    ensures !HasId(r, id)
    ensures |r| <= |tags|
    decreases |tags|
  {
    if tags == [] then []
    else (if tags[0].id != id then [tags[0]] else []) + RemoveId(tags[1..], id)
  }

  /** Removal keeps the order of what it keeps: it works piecewise over a concatenation. */
  lemma {:induction false} RemoveIdAppend(a: seq<Tag>, b: seq<Tag>, id: string)
    ensures RemoveId(a + b, id) == RemoveId(a, id) + RemoveId(b, id)
    decreases |a|
  {
    if a == [] {
      assert a + b == b;
    } else {
      assert (a + b)[0] == a[0];
      assert (a + b)[1..] == a[1..] + b;
      RemoveIdAppend(a[1..], b, id);
    }
  }

  /** Removing an id no tag carries changes nothing. */
  lemma {:induction false} RemoveIdAbsent(tags: seq<Tag>, id: string)
    requires !HasId(tags, id)
    ensures RemoveId(tags, id) == tags
    decreases |tags|
  {
    if tags != [] {
      assert tags[0].id != id;
      assert !HasId(tags[1..], id) by {
        forall i | 0 <= i < |tags[1..]| ensures tags[1..][i].id != id {
          assert tags[1..][i] == tags[i + 1];
        }
      }
      RemoveIdAbsent(tags[1..], id);
      assert [tags[0]] + tags[1..] == tags;
    }
  }

  lemma RemoveIdIdempotent(tags: seq<Tag>, id: string)
    ensures RemoveId(RemoveId(tags, id), id) == RemoveId(tags, id)
  {
    RemoveIdAbsent(RemoveId(tags, id), id);
  }

  /**
   * The selection after `handleTagSelect`: a tag whose id is selected is
   * deselected (every tag with that id goes); otherwise it is appended.
   */
  function ToggleTag(selected: seq<Tag>, tag: Tag): (r: seq<Tag>)
    ensures HasId(r, tag.id) <==> !HasId(selected, tag.id)
    ensures forall t: Tag :: t.id != tag.id ==> (t in r <==> t in selected)
    ensures !HasId(selected, tag.id) ==> r == selected + [tag]
    ensures HasId(selected, tag.id) ==> r == RemoveId(selected, tag.id)
  {
    if HasId(selected, tag.id) then RemoveId(selected, tag.id)
    else
      assert (selected + [tag])[|selected|] == tag;
      selected + [tag]
  }

  /** Selecting a tag that is not selected, then selecting it again, restores the selection. */
  lemma ToggleTwice(selected: seq<Tag>, tag: Tag)
    requires !HasId(selected, tag.id)
    ensures ToggleTag(ToggleTag(selected, tag), tag) == selected
  {
    RemoveIdAppend(selected, [tag], tag.id);
    RemoveIdAbsent(selected, tag.id);
    assert RemoveId([tag], tag.id) == [];
  }

  /** A callback the selector invokes, in the order it invokes them. */
  datatype Callback = OnChange(tags: seq<Tag>) | OnTagSelect(tag: Tag) | OnTagRemove(tagId: string)

  /** The new selection a handler stores, and the callbacks it makes. */
  datatype Handled = Handled(selected: seq<Tag>, calls: seq<Callback>)

  /** `handleTagSelect`: store the toggled selection, report it to `onChange`, then call `onTagSelect`. */
  function HandleTagSelect(selected: seq<Tag>, tag: Tag): (h: Handled)
    ensures h.selected == ToggleTag(selected, tag)
    ensures h.calls == [OnChange(h.selected), OnTagSelect(tag)]
  {
    var newTags := ToggleTag(selected, tag);
    Handled(newTags, [OnChange(newTags), OnTagSelect(tag)])
  }

  /** `handleTagRemove`: store the selection without `tagId`, report it, then call `onTagRemove`. */
  function HandleTagRemove(selected: seq<Tag>, tagId: string): (h: Handled)
    ensures h.selected == RemoveId(selected, tagId)
    ensures !HasId(h.selected, tagId)
    ensures forall t: Tag :: t.id != tagId ==> (t in h.selected <==> t in selected)
    ensures !HasId(selected, tagId) ==> h.selected == selected
    ensures h.calls == [OnChange(h.selected), OnTagRemove(tagId)]
  {
    var newTags := RemoveId(selected, tagId);
    assert !HasId(selected, tagId) ==> newTags == selected by {
      if !HasId(selected, tagId) {
        RemoveIdAbsent(selected, tagId);
      }
    }
    Handled(newTags, [OnChange(newTags), OnTagRemove(tagId)])
  }

  /** The check mark next to an offered tag is shown. */
  predicate IsChecked(selected: seq<Tag>, tag: Tag)
    ensures IsChecked(selected, tag) <==> exists t :: t in selected && t.id == tag.id
  {
    HasId(selected, tag.id)
  }

  /** Choosing an offered tag flips its check mark; removing its badge clears it. */
  lemma CheckMarkFollowsHandlers(selected: seq<Tag>, tag: Tag)
    ensures IsChecked(HandleTagSelect(selected, tag).selected, tag) <==> !IsChecked(selected, tag)
    ensures !IsChecked(HandleTagRemove(selected, tag.id).selected, tag)
  {
  }

  // ---------------------------------------------------------------------------
  // Popular tags: a stable sort by `popularity_order`
  // ---------------------------------------------------------------------------

  /** `popularity_order || Infinity`: a missing or zero order ranks last. */
  datatype Rank = Finite(n: int) | Infinite

  function RankOf(t: Tag): (r: Rank)
    ensures r == Infinite <==> t.popularity.None? || t.popularity == Some(0)
    ensures r.Finite? ==> Some(r.n) == t.popularity
  {
    if t.popularity.None? || t.popularity.value == 0 then Infinite else Finite(t.popularity.value)
  }

  /**
   * The comparator's verdict `a - b <= 0`. Two infinite ranks give NaN, which
   * the sort takes as equal.
   */
  predicate RankLe(a: Rank, b: Rank) {
    b.Infinite? || (a.Finite? && a.n <= b.n)
  }

  /** Every tag of `s` ranks no better than `k`. */
  predicate AllAtLeast(k: Rank, s: seq<Tag>) {
    forall t :: t in s ==> RankLe(k, RankOf(t))
  }

  /** Each tag ranks no worse than every tag after it. */
  predicate Sorted(s: seq<Tag>)
    decreases |s|
  {
    s == [] || (AllAtLeast(RankOf(s[0]), s[1..]) && Sorted(s[1..]))
  }

  lemma {:induction false} SortedPairwise(s: seq<Tag>)
    requires Sorted(s)
    ensures forall i, j :: 0 <= i < j < |s| ==> RankLe(RankOf(s[i]), RankOf(s[j]))
    decreases |s|
  {
    if s != [] {
      SortedPairwise(s[1..]);
      forall i, j | 0 <= i < j < |s| ensures RankLe(RankOf(s[i]), RankOf(s[j])) {
        assert s[j] == s[1..][j - 1];
        if i > 0 {
          assert s[i] == s[1..][i - 1];
        }
      }
    }
  }

  lemma {:induction false} SortedPrefix(s: seq<Tag>, n: nat)
    requires Sorted(s) && n <= |s|
    ensures Sorted(s[..n])
    decreases n
  {
    if n > 0 {
      SortedPrefix(s[1..], n - 1);
      assert s[..n][1..] == s[1..][..n - 1];
      forall t | t in s[..n][1..] ensures t in s[1..] {
        var i :| 0 <= i < n - 1 && s[1..][..n - 1][i] == t;
        assert s[1..][i] == t;
      }
    }
  }

  /** The tags of rank `k`, in the order of `s`. */
  function WithRank(s: seq<Tag>, k: Rank): (r: seq<Tag>)
    ensures forall t :: t in r <==> t in s && RankOf(t) == k
    decreases |s|
  {
    if s == [] then []
    else (if RankOf(s[0]) == k then [s[0]] else []) + WithRank(s[1..], k)
  }

  /** `x` placed before the first tag of `s` that ranks no better than it. */
  function Insert(x: Tag, s: seq<Tag>): (r: seq<Tag>)
    requires Sorted(s)
    ensures Sorted(r)
    ensures forall t :: t in r <==> t == x || t in s
    ensures multiset(r) == multiset(s) + multiset{x}
    ensures |r| == |s| + 1
    decreases |s|
  {
    if s == [] then [x]
    else
      assert s == [s[0]] + s[1..];
      if RankLe(RankOf(x), RankOf(s[0])) then
        assert ([x] + s)[1..] == s;
        [x] + s
      else
        var rest := Insert(x, s[1..]);
        assert ([s[0]] + rest)[1..] == rest;
        [s[0]] + rest
  }

  /** Insertion keeps every rank's tags in order, with `x` ahead of the ones already there. */
  lemma {:induction false} InsertWithRank(x: Tag, s: seq<Tag>, k: Rank)
    requires Sorted(s)
    ensures WithRank(Insert(x, s), k) == WithRank([x] + s, k)
    decreases |s|
  {
    if s != [] && !RankLe(RankOf(x), RankOf(s[0])) {
      var rest := Insert(x, s[1..]);
      var tail := WithRank(s[1..], k);
      var h0: seq<Tag> := if RankOf(s[0]) == k then [s[0]] else [];
      var hx: seq<Tag> := if RankOf(x) == k then [x] else [];
      assert Insert(x, s) == [s[0]] + rest;
      assert WithRank([s[0]] + rest, k) == h0 + WithRank(rest, k) by {
        WithRankCons([s[0]] + rest, k);
        assert ([s[0]] + rest)[1..] == rest;
      }
      assert WithRank(rest, k) == hx + tail by {
        InsertWithRank(x, s[1..], k);
        WithRankCons([x] + s[1..], k);
        assert ([x] + s[1..])[1..] == s[1..];
      }
      assert WithRank([x] + s, k) == hx + (h0 + tail) by {
        WithRankCons([x] + s, k);
        assert ([x] + s)[1..] == s;
        WithRankCons(s, k);
      }
      assert h0 == [] || hx == [] by {
        assert RankOf(x) != RankOf(s[0]);
      }
      SwapAroundEmpty(h0, hx, tail);
    }
  }

  /** Two heads commute in front of a tail when one of them is empty. */
  lemma SwapAroundEmpty(h0: seq<Tag>, hx: seq<Tag>, tail: seq<Tag>)
    requires h0 == [] || hx == []
    ensures h0 + (hx + tail) == hx + (h0 + tail)
  {
    if h0 == [] {
      assert h0 + (hx + tail) == hx + tail;
      assert h0 + tail == tail;
    } else {
      assert hx + (h0 + tail) == h0 + tail;
      assert hx + tail == tail;
    }
  }

  /** The copy `availableTags.slice().sort(...)`: a stable sort by rank. */
  function SortByPopularity(s: seq<Tag>): (r: seq<Tag>)
    ensures Sorted(r)
    ensures multiset(r) == multiset(s)
    ensures |r| == |s|
    decreases |s|
  {
    if s == [] then []
    else
      assert s == [s[0]] + s[1..];
      Insert(s[0], SortByPopularity(s[1..]))
  }

  /** The sort is stable: tags of equal rank keep the order they had. */
  lemma {:induction false} SortIsStable(s: seq<Tag>, k: Rank)
    ensures WithRank(SortByPopularity(s), k) == WithRank(s, k)
    decreases |s|
  {
    if s != [] {
      SortIsStable(s[1..], k);
      InsertWithRank(s[0], SortByPopularity(s[1..]), k);
      assert ([s[0]] + SortByPopularity(s[1..]))[1..] == SortByPopularity(s[1..]);
    }
  }

  /** Two sequences that agree after a common head agree after it. */
  lemma CancelHead(h: seq<Tag>, x: seq<Tag>, y: seq<Tag>)
    requires h + x == h + y
    ensures x == y
  {
    assert x == (h + x)[|h|..];
    assert y == (h + y)[|h|..];
  }

  lemma {:induction false} WithRankCons(s: seq<Tag>, k: Rank)
    requires s != []
    ensures WithRank(s, k) == (if RankOf(s[0]) == k then [s[0]] else []) + WithRank(s[1..], k)
  {
  }

  lemma WithRankNonEmpty(s: seq<Tag>)
    ensures s != [] ==> WithRank(s, RankOf(s[0])) != []
  {
    if s != [] {
      assert s[0] in WithRank(s, RankOf(s[0]));
    }
  }

  /** The first tag of a sorted sequence ranks no worse than any tag in it. */
  lemma SortedHeadIsLeast(s: seq<Tag>, t: Tag)
    requires Sorted(s) && s != [] && t in s
    ensures RankLe(RankOf(s[0]), RankOf(t))
  {
    assert s == [s[0]] + s[1..];
  }

  /**
   * A sorted sequence is fixed by the order of each rank's tags: the stable
   * sort is the only sorted arrangement that keeps ties in input order.
   */
  lemma {:induction false} SortedIsUnique(a: seq<Tag>, b: seq<Tag>)
    requires Sorted(a) && Sorted(b)
    requires forall k :: WithRank(a, k) == WithRank(b, k)
    ensures a == b
    decreases |a|
  {
    if a == [] {
      WithRankNonEmpty(b);
    } else {
      assert a[0] in WithRank(a, RankOf(a[0]));
      assert a[0] in WithRank(b, RankOf(a[0]));
      assert b != [] && b[0] in WithRank(b, RankOf(b[0]));
      assert b[0] in WithRank(a, RankOf(b[0]));
      SortedHeadIsLeast(a, b[0]);
      SortedHeadIsLeast(b, a[0]);
      var k0 := RankOf(a[0]);
      assert RankOf(b[0]) == k0;
      WithRankCons(a, k0);
      WithRankCons(b, k0);
      assert a[0] == WithRank(a, k0)[0];
      assert b[0] == WithRank(b, k0)[0];
      forall k ensures WithRank(a[1..], k) == WithRank(b[1..], k) {
        WithRankCons(a, k);
        WithRankCons(b, k);
        CancelHead(if k0 == k then [a[0]] else [], WithRank(a[1..], k), WithRank(b[1..], k));
      }
      SortedIsUnique(a[1..], b[1..]);
      assert a == [a[0]] + a[1..] && b == [b[0]] + b[1..];
    }
  }

  /** How many popular tags are offered for a blank query. */
  const PopularCount: nat := 10

  /**
   * `.slice(0, 10)` of the sorted copy: at most ten tags, the best ranked,
   * ties in input order.
   */
  function Popular(available: seq<Tag>): (r: seq<Tag>)
    ensures |r| == if |available| < PopularCount then |available| else PopularCount
    ensures Sorted(r)
    ensures multiset(r) <= multiset(available)
    ensures forall i, j :: 0 <= i < |r| <= j < |available| ==>
              RankLe(RankOf(r[i]), RankOf(SortByPopularity(available)[j]))
    ensures r == SortByPopularity(available)[..|r|]
  {
    var sorted := SortByPopularity(available);
    var n := if |sorted| < PopularCount then |sorted| else PopularCount;
    var r := sorted[..n];
    assert Sorted(r) by { SortedPrefix(sorted, n); }
    assert multiset(r) <= multiset(available) by {
      assert sorted == r + sorted[n..];
      assert multiset(sorted) == multiset(r) + multiset(sorted[n..]);
    }
    assert forall i, j :: 0 <= i < |r| <= j < |available| ==> RankLe(RankOf(r[i]), RankOf(sorted[j])) by {
      SortedPairwise(sorted);
      forall i, j | 0 <= i < |r| <= j < |available| ensures RankLe(RankOf(r[i]), RankOf(sorted[j])) {
        assert r[i] == sorted[i];
      }
    }
    r
  }

  /**
   * The popular tags are the first ten of ANY arrangement of the available
   * tags that is sorted by rank and keeps each rank's tags in input order.
   */
  lemma PopularIsDetermined(available: seq<Tag>, arranged: seq<Tag>)
    requires Sorted(arranged)
    requires forall k :: WithRank(arranged, k) == WithRank(available, k)
    ensures |Popular(available)| <= |arranged|
    ensures Popular(available) == arranged[..|Popular(available)|]
  {
    forall k ensures WithRank(SortByPopularity(available), k) == WithRank(arranged, k) {
      SortIsStable(available, k);
    }
    SortedIsUnique(SortByPopularity(available), arranged);
  }

  // ---------------------------------------------------------------------------
  // Search: trim, lower case, substring
  // ---------------------------------------------------------------------------

  /** The characters JavaScript's `trim` removes: white space and line terminators. */
  predicate IsJsSpace(c: char) {
    || ('\U{0009}' <= c <= '\U{000D}') || c == ' ' || c == '\U{00A0}' || c == '\U{1680}'
    || ('\U{2000}' <= c <= '\U{200A}') || c == '\U{2028}' || c == '\U{2029}' || c == '\U{202F}'
    || c == '\U{205F}' || c == '\U{3000}' || c == '\U{FEFF}'
  }

  function TrimStart(s: string): (r: string)
    ensures |r| <= |s| && r == s[|s| - |r|..]
    ensures r == [] || !IsJsSpace(r[0])
    ensures forall i :: 0 <= i < |s| - |r| ==> IsJsSpace(s[i])
    decreases |s|
  {
    if s != [] && IsJsSpace(s[0]) then
      var r := TrimStart(s[1..]);
      assert forall i :: 1 <= i < |s| - |r| ==> s[i] == s[1..][i - 1];
      r
    else s
  }

  function TrimEnd(s: string): (r: string)
    ensures |r| <= |s| && r == s[..|r|]
    ensures r == [] || !IsJsSpace(r[|r| - 1])
    ensures forall i :: |r| <= i < |s| ==> IsJsSpace(s[i])
    decreases |s|
  {
    if s != [] && IsJsSpace(s[|s| - 1]) then
      var r := TrimEnd(s[..|s| - 1]);
      assert forall i :: |r| <= i < |s| - 1 ==> s[i] == s[..|s| - 1][i];
      r
    else s
  }

  /** `String.prototype.trim`. */
  function Trim(s: string): (r: string)
    ensures |r| <= |s|
    ensures r == [] || (!IsJsSpace(r[0]) && !IsJsSpace(r[|r| - 1]))
  {
    TrimEnd(TrimStart(s))
  }

  /** A query trims to nothing exactly when every character is white space. */
  lemma TrimEmptyIffBlank(s: string)
    ensures Trim(s) == "" <==> forall i :: 0 <= i < |s| ==> IsJsSpace(s[i])
  {
    var start := TrimStart(s);
    if start == [] {
      assert TrimEnd(start) == [];
    } else {
      assert !IsJsSpace(start[0]) && start[0] == s[|s| - |start|];
      assert TrimEnd(start) != [];
    }
  }

  /** ASCII `toLowerCase`. */
  function LowerChar(c: char): char {
    if 'A' <= c <= 'Z' then (c as int + 32) as char else c
  }

  function Lower(s: string): (r: string)
    ensures |r| == |s| && forall i :: 0 <= i < |s| ==> r[i] == LowerChar(s[i])
  {
    seq(|s|, i requires 0 <= i < |s| => LowerChar(s[i]))
  }

  /** `String.prototype.includes`. */
  predicate Includes(hay: string, needle: string)
    ensures Includes(hay, needle) ==> |needle| <= |hay|
    ensures needle == [] ==> Includes(hay, needle)
    decreases |hay|
  {
    StartsWith(hay, needle) || (hay != [] && Includes(hay[1..], needle))
  }

  /** `needle` occurs in `hay` starting at offset `i`. */
  predicate OccursAt(hay: string, needle: string, i: int) {
    0 <= i && i + |needle| <= |hay| && hay[i..i + |needle|] == needle
  }

  /** `Includes` finds the needle exactly when it occurs at some offset. */
  lemma {:induction false} IncludesAt(hay: string, needle: string)
    ensures Includes(hay, needle) <==> exists i :: OccursAt(hay, needle, i)
    decreases |hay|
  {
    if StartsWith(hay, needle) {
      assert OccursAt(hay, needle, 0);
    }
    if hay != [] {
      IncludesAt(hay[1..], needle);
      if exists i :: OccursAt(hay, needle, i) {
        var i :| OccursAt(hay, needle, i);
        if i > 0 {
          assert hay[1..][i - 1..i - 1 + |needle|] == needle;
          assert OccursAt(hay[1..], needle, i - 1);
        }
      }
      if Includes(hay[1..], needle) {
        var i :| OccursAt(hay[1..], needle, i);
        assert hay[i + 1..i + 1 + |needle|] == needle;
        assert OccursAt(hay, needle, i + 1);
      }
    } else if exists i :: OccursAt(hay, needle, i) {
      var i :| OccursAt(hay, needle, i);
      assert StartsWith(hay, needle);
    }
  }

  /** The search results: the tags whose lower-cased label contains the lower-cased query. */
  function Matching(tags: seq<Tag>, query: string): (r: seq<Tag>)
    ensures forall t :: t in r <==> t in tags && Includes(Lower(t.labelText), Lower(query))
    ensures |r| <= |tags|
    decreases |tags|
  {
    if tags == [] then []
    else (if Includes(Lower(tags[0].labelText), Lower(query)) then [tags[0]] else []) + Matching(tags[1..], query)
  }

  /** The search keeps the tags' order: it works piecewise over a concatenation. */
  lemma {:induction false} MatchingAppend(a: seq<Tag>, b: seq<Tag>, query: string)
    ensures Matching(a + b, query) == Matching(a, query) + Matching(b, query)
    decreases |a|
  {
    if a == [] {
      assert a + b == b;
    } else {
      assert (a + b)[0] == a[0];
      assert (a + b)[1..] == a[1..] + b;
      MatchingAppend(a[1..], b, query);
    }
  }

  /**
   * `filteredTags`: for a query that trims to nothing, the popular tags;
   * otherwise every matching tag, in order, with no cap. The untrimmed query
   * is what is searched for.
   */
  function FilteredTags(available: seq<Tag>, inputValue: string): (r: seq<Tag>)
    ensures Trim(inputValue) == "" ==>
              && |r| == (if |available| < PopularCount then |available| else PopularCount)
              && Sorted(r) && r == SortByPopularity(available)[..|r|]
    ensures Trim(inputValue) != "" ==> r == Matching(available, inputValue)
    ensures Trim(inputValue) != "" ==>
              forall t :: t in r <==> t in available && Includes(Lower(t.labelText), Lower(inputValue))
  {
    if Trim(inputValue) == "" then Popular(available) else Matching(available, inputValue)
  }

  // ---------------------------------------------------------------------------
  // Summary label
  // ---------------------------------------------------------------------------

  predicate IsDigit(c: char) {
    '0' <= c <= '9'
  }

  /** The decimal numeral of `n`, as a template literal renders it. */
  function NatToString(n: nat): (s: string)
    ensures |s| >= 1 && forall i :: 0 <= i < |s| ==> IsDigit(s[i])
    ensures s[0] == '0' ==> n == 0
    decreases n
  {
    var digit := ['0' + (n % 10) as char];
    if n < 10 then digit else NatToString(n / 10) + digit
  }

  /** The value of a decimal numeral. */
  function ParseNat(s: string): nat
    requires forall i :: 0 <= i < |s| ==> IsDigit(s[i])
    decreases |s|
  {
    if s == [] then 0
    else
      assert IsDigit(s[|s| - 1]);
      10 * ParseNat(s[..|s| - 1]) + (s[|s| - 1] as int - '0' as int)
  }

  lemma {:induction false} ParseNatToString(n: nat)
    ensures ParseNat(NatToString(n)) == n
    decreases n
  {
    var s := NatToString(n);
    if n >= 10 {
      ParseNatToString(n / 10);
      assert s[..|s| - 1] == NatToString(n / 10);
    }
  }

  /** The text of the selector's button for `count` selected tags. */
  function SummaryLabel(count: nat): (text: string)
    ensures text == "Select tags..." <==> count == 0
    ensures count > 0 ==> text == NatToString(count) + " tag" + (if count > 1 then "s" else "") + " selected"
  {
    if count > 0 then
      var numeral := NatToString(count);
      var text := numeral + " tag" + (if count > 1 then "s" else "") + " selected";
      assert text[0] == numeral[0] && text[0] != 'S';
      text
    else "Select tags..."
  }

  /** The label reads back as the count, in the plural exactly when more than one tag is selected. */
  lemma SummaryLabelReadsBack(count: nat)
    requires count > 0
    ensures var text := SummaryLabel(count);
            var digits := |NatToString(count)|;
            && digits <= |text|
            && (forall i :: 0 <= i < digits ==> IsDigit(text[i]))
            && ParseNat(text[..digits]) == count
            && text[digits..] == (if count > 1 then " tags selected" else " tag selected")
  {
    var numeral := NatToString(count);
    var suffix := if count > 1 then " tags selected" else " tag selected";
    assert numeral + " tag" + (if count > 1 then "s" else "") + " selected" == numeral + suffix;
    var text := numeral + suffix;
    assert text[..|numeral|] == numeral;
    assert text[|numeral|..] == suffix;
    ParseNatToString(count);
  }
}
