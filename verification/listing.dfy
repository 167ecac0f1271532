/** The two content listings: the public home page and the admin "Kelola Konten" page.
    Both filter the loaded rows by a search text and a category; the home page also
    shows a badge per category and the total size of everything listed, and the admin
    page removes a row from its list once the server confirms the delete. */
module Listing {
  import opened Basics
  import Text
  import opened Validation
  import opened Catalog

  /** The category filter value that selects every category. */
  const ALL: string := "all"

  // ---------------------------------------------------------------------------
  // The filter both pages use
  // ---------------------------------------------------------------------------

  /** An empty search matches everything; otherwise the lower-cased search must occur
      in the lower-cased title or description. */
  predicate MatchesSearch(c: ContentRow, search: string)
  {
    || search == ""
    || Text.Contains(Text.Lower(c.title), Text.Lower(search))
    || Text.Contains(Text.Lower(c.description), Text.Lower(search))
  }

  predicate MatchesCategory(c: ContentRow, category: string)
  {
    category == ALL || c.category == category
  }

  predicate Matches(c: ContentRow, search: string, category: string)
  {
    MatchesSearch(c, search) && MatchesCategory(c, category)
  }

  /** `contents.filter(...)`: the matching rows, in their order. */
  function Filtered(contents: seq<ContentRow>, search: string, category: string): (r: seq<ContentRow>)
    ensures |r| <= |contents|
  {
    if contents == [] then []
    else if Matches(contents[0], search, category) then [contents[0]] + Filtered(contents[1..], search, category)
    else Filtered(contents[1..], search, category)
  }

  /** A row is listed exactly when it was loaded and matches both filters. */
  lemma {:induction false} FilteredMembers(contents: seq<ContentRow>, search: string, category: string)
    ensures forall x :: x in Filtered(contents, search, category) <==> x in contents && Matches(x, search, category)
  {
    if contents != [] {
      FilteredMembers(contents[1..], search, category);
      assert forall x :: x in contents <==> x == contents[0] || x in contents[1..];
    }
  }

  /** Filtering distributes over concatenation, so the listed rows keep their relative
      order. */
  lemma {:induction false} FilteredAppend(a: seq<ContentRow>, b: seq<ContentRow>, search: string, category: string)
    ensures Filtered(a + b, search, category) == Filtered(a, search, category) + Filtered(b, search, category)
  {
    if a == [] {
      assert a + b == b;
    } else {
      var restA, restB := Filtered(a[1..], search, category), Filtered(b, search, category);
      assert (a + b)[0] == a[0];
      assert (a + b)[1..] == a[1..] + b;
      FilteredAppend(a[1..], b, search, category);
      if Matches(a[0], search, category) {
        assert [a[0]] + (restA + restB) == ([a[0]] + restA) + restB;
      }
    }
  }

  /** With no search and the "all" category nothing is filtered out. */
  lemma {:induction false} UnfilteredShowsAll(contents: seq<ContentRow>)
    ensures Filtered(contents, "", ALL) == contents
  {
    if contents != [] {
      UnfilteredShowsAll(contents[1..]);
    }
  }

  /** The search ignores case: searching for its lower-cased form lists the same rows. */
  lemma SearchIgnoresCase(c: ContentRow, search: string, category: string)
    ensures Matches(c, Text.Lower(search), category) == Matches(c, search, category)
  {
    LowerIdempotent(search);
    assert |Text.Lower(search)| == |search|;
  }

  /** Choosing a category lists only rows of that category. */
  lemma CategoryFilterExact(contents: seq<ContentRow>, search: string, category: string)
    requires category != ALL
    ensures forall x :: x in Filtered(contents, search, category) ==> x.category == category
  {
    FilteredMembers(contents, search, category);
  }

  // ---------------------------------------------------------------------------
  // The public home page
  // ---------------------------------------------------------------------------

  /** One sidebar entry: a category and how many loaded rows it has. */
  datatype Badge = Badge(category: string, count: nat)

  /** The sidebar entries in the order of `cats`, skipping categories with no row. */
  function Badges(contents: seq<ContentRow>, cats: seq<Category>): (r: seq<Badge>)
    ensures |r| <= |cats|
  {
    if cats == [] then []
    else
      var n := CountIn(contents, cats[0].value);
      (if n == 0 then [] else [Badge(cats[0].value, n)]) + Badges(contents, cats[1..])
  }

  /** No two entries of `cats` share a value. */
  predicate DistinctValues(cats: seq<Category>)
  {
    forall i, j :: 0 <= i < j < |cats| ==> cats[i].value != cats[j].value
  }

  /** The sidebar's seven categories have seven different values. */
  lemma CategoryValuesDistinct()
    ensures DistinctValues(CATEGORIES)
  {
    var vs := seq(|CATEGORIES|, i requires 0 <= i < |CATEGORIES| => CATEGORIES[i].value);
    assert vs == ["mod", "skin", "world", "texture-pack", "addon", "template", "other"];
    assert forall i :: 0 <= i < |CATEGORIES| ==> CATEGORIES[i].value == vs[i];
    assert "texture-pack"[2] != "template"[2];
  }

  /** No two badges name the same category. */
  predicate OneBadgeEach(badges: seq<Badge>)
  {
    forall i, j :: 0 <= i < j < |badges| ==> badges[i].category != badges[j].category
  }

  /** Over categories with different values, the sidebar shows at most one badge per
      category. */
  lemma {:induction false} BadgeOncePerCategory(contents: seq<ContentRow>, cats: seq<Category>)
    requires DistinctValues(cats)
    ensures OneBadgeEach(Badges(contents, cats))
  {
    if cats != [] {
      var tail := cats[1..];
      assert DistinctValues(tail) by {
        forall i, j | 0 <= i < j < |tail| ensures tail[i].value != tail[j].value {
          assert tail[i] == cats[i + 1] && tail[j] == cats[j + 1];
        }
      }
      BadgeOncePerCategory(contents, tail);
      var n := CountIn(contents, cats[0].value);
      var rest := Badges(contents, tail);
      if n == 0 {
        assert Badges(contents, cats) == rest;
      } else {
        var r := [Badge(cats[0].value, n)] + rest;
        assert Badges(contents, cats) == r;
        assert forall c :: c in tail ==> c.value != cats[0].value by {
          forall c | c in tail ensures c.value != cats[0].value {
            var m :| 0 <= m < |tail| && tail[m] == c;
            assert cats[m + 1] == c;
          }
        }
        BadgesAvoid(contents, tail, cats[0].value);
        forall i, j | 0 <= i < j < |r| ensures r[i].category != r[j].category {
          assert r[j] == rest[j - 1];
          if i > 0 {
            assert r[i] == rest[i - 1];
          } else {
            assert rest[j - 1] in rest;
          }
        }
      }
    }
  }

  /** Categories other than `v` never produce a badge for `v`. */
  lemma {:induction false} BadgesAvoid(contents: seq<ContentRow>, cats: seq<Category>, v: string)
    requires forall c :: c in cats ==> c.value != v
    ensures forall b :: b in Badges(contents, cats) ==> b.category != v
  {
    if cats != [] {
      var tail := cats[1..];
      assert forall c :: c in tail ==> c in cats;
      BadgesAvoid(contents, tail, v);
      var n := CountIn(contents, cats[0].value);
      var head: seq<Badge> := if n == 0 then [] else [Badge(cats[0].value, n)];
      assert Badges(contents, cats) == head + Badges(contents, tail);
    }
  }

  predicate HasBadge(badges: seq<Badge>, category: string)
  {
    exists i :: 0 <= i < |badges| && badges[i].category == category
  }

  /** A category has rows exactly when one of the rows carries it. */
  lemma {:induction false} CountInPositive(rows: seq<ContentRow>, category: string)
    ensures CountIn(rows, category) > 0 <==> exists k :: 0 <= k < |rows| && rows[k].category == category
  {
    if rows != [] {
      var prefix := rows[..|rows| - 1];
      CountInPositive(prefix, category);
      if exists k :: 0 <= k < |prefix| && prefix[k].category == category {
        var k :| 0 <= k < |prefix| && prefix[k].category == category;
        assert rows[k] == prefix[k];
      }
      if exists k :: 0 <= k < |rows| && rows[k].category == category {
        var k :| 0 <= k < |rows| && rows[k].category == category;
        if k < |prefix| {
          assert prefix[k] == rows[k];
        }
      }
    }
  }

  /** A badge list joined from two parts has a badge for a category iff one part has. */
  lemma HasBadgeAppend(a: seq<Badge>, b: seq<Badge>, category: string)
    ensures HasBadge(a + b, category) <==> HasBadge(a, category) || HasBadge(b, category)
  {
    var ab := a + b;
    if HasBadge(b, category) {
      var i :| 0 <= i < |b| && b[i].category == category;
      assert ab[|a| + i] == b[i];
    }
    if HasBadge(a, category) {
      var i :| 0 <= i < |a| && a[i].category == category;
      assert ab[i] == a[i];
    }
    if HasBadge(ab, category) {
      var i :| 0 <= i < |ab| && ab[i].category == category;
      if i >= |a| {
        assert b[i - |a|] == ab[i];
      } else {
        assert a[i] == ab[i];
      }
    }
  }

  /** Every badge shows the number of loaded rows of its category, never zero. */
  lemma {:induction false} BadgeCounts(contents: seq<ContentRow>, cats: seq<Category>)
    ensures forall b :: b in Badges(contents, cats) ==> b.count == CountIn(contents, b.category) && b.count > 0
  {
    if cats != [] {
      var n := CountIn(contents, cats[0].value);
      var head: seq<Badge> := if n == 0 then [] else [Badge(cats[0].value, n)];
      var rest := Badges(contents, cats[1..]);
      BadgeCounts(contents, cats[1..]);
      var r := head + rest;
      assert Badges(contents, cats) == r;
      forall b | b in r ensures b.count == CountIn(contents, b.category) && b.count > 0 {
        if b !in rest {
          assert b in head;
        }
      }
    }
  }

  /** A category of `cats` gets a badge exactly when some loaded row has it. */
  lemma {:induction false} BadgeShown(contents: seq<ContentRow>, cats: seq<Category>, c: Category)
    requires c in cats
    ensures HasBadge(Badges(contents, cats), c.value) <==>
            exists k :: 0 <= k < |contents| && contents[k].category == c.value
  {
    var n := CountIn(contents, cats[0].value);
    var head: seq<Badge> := if n == 0 then [] else [Badge(cats[0].value, n)];
    var rest := Badges(contents, cats[1..]);
    assert Badges(contents, cats) == head + rest;
    HasBadgeAppend(head, rest, c.value);
    CountInPositive(contents, c.value);
    if c == cats[0] {
      if n > 0 {
        assert head[0].category == c.value;
      }
      if HasBadge(rest, c.value) {
        var i :| 0 <= i < |rest| && rest[i].category == c.value;
        BadgeCounts(contents, cats[1..]);
        assert rest[i] in rest;
        assert n == rest[i].count > 0;
        assert head[0].category == c.value;
      }
    } else {
      assert c in cats[1..];
      BadgeShown(contents, cats[1..], c);
      if HasBadge(head, c.value) {
        assert head[0].category == cats[0].value;
      }
    }
  }

  /** `totalDownloadSize`: the summed `file_size` of the loaded rows. */
  function TotalDownloadSize(contents: seq<ContentRow>): int
  {
    SumOf(contents, FileSizeOf)
  }

  /** The home page loads every row, newest first, so its total is the stored total the
      storage statistics report. */
  lemma DownloadTotalIsStoredSize(rows: seq<ContentRow>)
    ensures TotalDownloadSize(AllContents(rows)) == TotalSize(rows)
  {
    Sorting.SortDescSum(rows, CreatedAtOf, FileSizeOf);
  }

  // ---------------------------------------------------------------------------
  // The admin contents page
  // ---------------------------------------------------------------------------

  /** Whether the empty listing offers the upload link. */
  predicate ShowsUploadLink(search: string, categoryFilter: string)
  {
    search == "" && categoryFilter == ALL
  }

  /** When the upload link is offered, the empty listing means there is no content at
      all; with any filter set, it can mean only that nothing matched. */
  lemma UploadLinkMeansNoContent(contents: seq<ContentRow>, search: string, categoryFilter: string)
    requires Filtered(contents, search, categoryFilter) == []
    ensures ShowsUploadLink(search, categoryFilter) ==> contents == []
  {
    if ShowsUploadLink(search, categoryFilter) {
      UnfilteredShowsAll(contents);
    }
  }

  /** Removing the deleted id from the loaded rows commutes with filtering: the listing
      after a delete is the old listing without that id. */
  lemma {:induction false} FilteredAfterDelete(contents: seq<ContentRow>, id: string, search: string, category: string)
    ensures Filtered(WithoutId(contents, id), search, category) == WithoutId(Filtered(contents, search, category), id)
  {
    if contents != [] {
      FilteredAfterDelete(contents[1..], id, search, category);
      var x := contents[0];
      var kept: seq<ContentRow> := if x.id == id then [] else [x];
      var listed: seq<ContentRow> := if Matches(x, search, category) then [x] else [];
      FilteredAppend(kept, WithoutId(contents[1..], id), search, category);
      WithoutIdAppend(listed, Filtered(contents[1..], search, category), id);
      assert Filtered(kept, search, category) == WithoutId(listed, id) by {
        if kept != [] { assert kept[1..] == []; }
        if listed != [] { assert listed[1..] == []; }
      }
    }
  }

  /** The page state: the loaded rows and the two filter inputs. */
  class AdminContentsPage {
    var contents: seq<ContentRow>
    var search: string
    var categoryFilter: string

    constructor ()
      ensures contents == [] && search == "" && categoryFilter == ALL
    {
      contents := [];
      search := "";
      categoryFilter := ALL;
    }

    /** The rows on screen. */
    function Listed(): (r: seq<ContentRow>)
      reads this
      ensures forall x :: x in r <==> x in contents && Matches(x, search, categoryFilter)
    {
      FilteredMembers(contents, search, categoryFilter);
      Filtered(contents, search, categoryFilter)
    }

    /** `fetchContents`: an OK response replaces the rows; anything else keeps them. */
    method FetchContents(response: Option<seq<ContentRow>>)
      modifies this
      ensures contents == (if response.Some? then response.value else old(contents))
      ensures search == old(search) && categoryFilter == old(categoryFilter)
    {
      if response.Some? {
        contents := response.value;
      }
    }

    /** `handleDelete`: `confirmed` is the answer to the confirmation dialog and `ok`
        whether the DELETE request came back OK. Only a confirmed, OK delete drops the
        rows with that id, keeping the others in order. */
    method HandleDelete(id: string, confirmed: bool, ok: bool)
      modifies this
      ensures confirmed && ok ==> contents == WithoutId(old(contents), id)
      ensures !(confirmed && ok) ==> contents == old(contents)
      ensures search == old(search) && categoryFilter == old(categoryFilter)
      ensures confirmed && ok ==> Listed() == WithoutId(old(Listed()), id)
    {
      if !confirmed {
        return;
      }
      if ok {
        contents := WithoutId(contents, id);
        FilteredAfterDelete(old(contents), id, search, categoryFilter);
      }
    }
  }
}
