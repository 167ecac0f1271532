/** The SQLite catalog: the `contents` table (one row per published item) and the
    `settings` key/value table, with the queries the application runs on them. */
module Catalog {
  import opened Basics
  import Sorting

  /** The settings key of the storage quota, and the quota (1 TiB) written when it is absent. */
  const MAX_STORAGE_KEY: string := "max_storage_bytes"
  const DEFAULT_MAX_STORAGE: string := "1099511627776"

  /** One row of `contents`. `createdAt` is the insertion time; the table orders rows by it. */
  datatype ContentRow = ContentRow(
    id: string,
    title: string,
    description: string,
    category: string,
    filePath: string,
    thumbnailPath: string,
    fileSize: int,
    extension: string,
    downloads: nat,
    visits: nat,
    createdAt: int)

  /** The values bound by `insertContent`. A `fileSize` that is not a number (NaN) is
      bound as NULL, which is `None` here. */
  datatype NewContent = NewContent(
    id: string,
    title: string,
    description: string,
    category: string,
    filePath: string,
    thumbnailPath: string,
    fileSize: Option<int>,
    extension: string)

  /** The constraint violations an insert can raise, in the order SQLite checks them. */
  datatype InsertError = NullFileSize | DuplicateId

  function FileSizeOf(r: ContentRow): int { r.fileSize }
  function CreatedAtOf(r: ContentRow): int { r.createdAt }
  function VisitsOf(r: ContentRow): int { r.visits }
  function DownloadsOf(r: ContentRow): int { r.downloads }

  predicate HasId(rows: seq<ContentRow>, id: string)
  {
    exists k :: 0 <= k < |rows| && rows[k].id == id
  }

  /** `id TEXT PRIMARY KEY`. */
  predicate UniqueIds(rows: seq<ContentRow>)
  {
    forall i, j :: 0 <= i < j < |rows| ==> rows[i].id != rows[j].id
  }

  /** The row an insert creates: counters at zero, stamped with the current time. */
  function NewRow(c: NewContent, now: int): ContentRow
    requires c.fileSize.Some?
  {
    ContentRow(c.id, c.title, c.description, c.category, c.filePath, c.thumbnailPath,
               c.fileSize.value, c.extension, 0, 0, now)
  }

  // ---------------------------------------------------------------------------
  // Queries on the rows
  // ---------------------------------------------------------------------------

  /** Past a first row with another id, the id is present iff it is present in the rest. */
  lemma HasIdTail(rows: seq<ContentRow>, id: string)
    requires rows != [] && rows[0].id != id
    ensures HasId(rows, id) <==> HasId(rows[1..], id)
  {
    if HasId(rows, id) {
      var k :| 0 <= k < |rows| && rows[k].id == id;
      assert rows[1..][k - 1] == rows[k];
    }
    if HasId(rows[1..], id) {
      var k :| 0 <= k < |rows[1..]| && rows[1..][k].id == id;
      assert rows[k + 1] == rows[1..][k];
    }
  }

  /** `SELECT * FROM contents WHERE id = ?`. */
  function FindById(rows: seq<ContentRow>, id: string): (r: Option<ContentRow>)
    ensures r.None? <==> !HasId(rows, id)
    ensures r.Some? ==> r.value in rows && r.value.id == id
  {
    if rows == [] then None
    else if rows[0].id == id then Some(rows[0])
    else
      HasIdTail(rows, id);
      FindById(rows[1..], id)
  }

  /** With unique ids the row found is the one at the position holding that id. */
  lemma FindByIdUnique(rows: seq<ContentRow>, k: nat)
    requires UniqueIds(rows) && k < |rows|
    ensures FindById(rows, rows[k].id) == Some(rows[k])
  {
    var r := FindById(rows, rows[k].id);
    var j :| 0 <= j < |rows| && rows[j] == r.value;
    assert j == k;
  }

  /** `SELECT COALESCE(SUM(file_size), 0) FROM contents`. */
  function TotalSize(rows: seq<ContentRow>): int
  {
    SumOf(rows, FileSizeOf)
  }

  /** `SELECT COUNT(*) FROM contents`. */
  function ContentCount(rows: seq<ContentRow>): nat
  {
    |rows|
  }

  /** `SELECT * FROM contents ORDER BY created_at DESC`. */
  function AllContents(rows: seq<ContentRow>): (r: seq<ContentRow>)
    ensures Sorting.SortedDesc(r, CreatedAtOf) && multiset(r) == multiset(rows)
  {
    Sorting.SortDesc(rows, CreatedAtOf)
  }

  /** `SELECT * FROM contents ORDER BY created_at DESC LIMIT ?`. */
  function RecentContents(rows: seq<ContentRow>, limit: int): (r: seq<ContentRow>)
    ensures Sorting.SortedDesc(r, CreatedAtOf)
    ensures limit >= 0 ==> |r| == if limit < |rows| then limit else |rows|
    ensures limit < 0 ==> |r| == |rows|
    ensures forall x :: x in r ==> x in rows
    ensures multiset(r) <= multiset(rows)
    ensures r <= AllContents(rows)
  {
    var sorted := AllContents(rows);
    var r := Sorting.Limit(sorted, limit);
    assert |sorted| == |multiset(sorted)| == |multiset(rows)| == |rows|;
    assert sorted == r + sorted[|r|..];
    assert multiset(sorted) == multiset(r) + multiset(sorted[|r|..]);
    assert forall x :: x in r ==> x in rows by {
      forall x | x in r ensures x in rows {
        var i :| 0 <= i < |r| && r[i] == x;
        assert sorted[i] == x;
        assert x in multiset(sorted);
      }
    }
    r
  }

  /** `getRecentContents()` without an argument takes six rows. */
  const DEFAULT_RECENT_LIMIT: int := 6

  /** The rows returned are the newest: no row left out is newer than one returned. */
  lemma RecentAreNewest(rows: seq<ContentRow>, limit: int, x: ContentRow, y: ContentRow)
    requires x in RecentContents(rows, limit) && y in rows && y !in RecentContents(rows, limit)
    ensures x.createdAt >= y.createdAt
  {
    var sorted := AllContents(rows);
    var r := RecentContents(rows, limit);
    assert y in multiset(rows);
    assert y in sorted;
    var m :| 0 <= m < |sorted| && sorted[m] == y;
    var i :| 0 <= i < |r| && r[i] == x;
    assert r == sorted[..|r|];
    assert m >= |r|;
    assert sorted[i] == x;
  }

  // ---------------------------------------------------------------------------
  // What the writes do to the rows
  // ---------------------------------------------------------------------------

  /** `DELETE FROM contents WHERE id = ?`: the rows without that id, in their order. */
  function WithoutId(rows: seq<ContentRow>, id: string): (r: seq<ContentRow>)
    ensures !HasId(r, id) && |r| <= |rows|
  {
    if rows == [] then []
    else (if rows[0].id == id then [] else [rows[0]]) + WithoutId(rows[1..], id)
  }

  /** A row survives the delete exactly when its id is another one. */
  lemma {:induction false} WithoutIdMembers(rows: seq<ContentRow>, id: string)
    ensures forall x :: x in WithoutId(rows, id) <==> x in rows && x.id != id
  {
    if rows != [] {
      WithoutIdMembers(rows[1..], id);
      assert forall x :: x in rows <==> x == rows[0] || x in rows[1..];
    }
  }

  /** Deleting distributes over concatenation, so the kept rows keep their order. */
  lemma {:induction false} WithoutIdAppend(a: seq<ContentRow>, b: seq<ContentRow>, id: string)
    ensures WithoutId(a + b, id) == WithoutId(a, id) + WithoutId(b, id)
  {
    if a == [] {
      assert a + b == b;
    } else {
      assert (a + b)[0] == a[0];
      assert (a + b)[1..] == a[1..] + b;
      WithoutIdAppend(a[1..], b, id);
    }
  }

  /** Deleting an id that is not there changes nothing. */
  lemma {:induction false} WithoutAbsentId(rows: seq<ContentRow>, id: string)
    requires !HasId(rows, id)
    ensures WithoutId(rows, id) == rows
  {
    if rows != [] {
      assert rows[0].id != id;
      HasIdTail(rows, id);
      WithoutAbsentId(rows[1..], id);
    }
  }

  /** In a table with unique ids, the id of row k occurs nowhere before or after it. */
  lemma IdOnlyAt(rows: seq<ContentRow>, k: nat)
    requires UniqueIds(rows) && k < |rows|
    ensures !HasId(rows[..k], rows[k].id) && !HasId(rows[k + 1..], rows[k].id)
  {
    var id := rows[k].id;
    var before, after := rows[..k], rows[k + 1..];
    forall j | 0 <= j < |before| ensures before[j].id != id {
      assert before[j] == rows[j];
    }
    forall j | 0 <= j < |after| ensures after[j].id != id {
      assert after[j] == rows[k + 1 + j];
    }
  }

  /** With unique ids, deleting removes exactly the one row holding the id. */
  lemma {:induction false} DeleteRemovesOne(rows: seq<ContentRow>, k: nat)
    requires UniqueIds(rows) && k < |rows|
    ensures WithoutId(rows, rows[k].id) == rows[..k] + rows[k + 1..]
  {
    var id := rows[k].id;
    var tail := rows[1..];
    if k == 0 {
      IdOnlyAt(rows, 0);
      WithoutAbsentId(tail, id);
    } else {
      assert UniqueIds(tail) by {
        forall i, j | 0 <= i < j < |tail| ensures tail[i].id != tail[j].id {
          assert tail[i] == rows[i + 1] && tail[j] == rows[j + 1];
        }
      }
      assert tail[k - 1] == rows[k] && rows[0].id != id;
      DeleteRemovesOne(tail, k - 1);
      assert WithoutId(rows, id) == [rows[0]] + (tail[..k - 1] + tail[k..]);
      assert [rows[0]] + (tail[..k - 1] + tail[k..]) == rows[..k] + rows[k + 1..];
    }
  }

  /** Deleting a present id takes one off the row count; deleting an absent one changes
      nothing. */
  lemma DeleteCount(rows: seq<ContentRow>, id: string)
    requires UniqueIds(rows)
    ensures ContentCount(WithoutId(rows, id)) == if HasId(rows, id) then ContentCount(rows) - 1 else ContentCount(rows)
  {
    if HasId(rows, id) {
      var k :| 0 <= k < |rows| && rows[k].id == id;
      DeleteRemovesOne(rows, k);
    } else {
      WithoutAbsentId(rows, id);
    }
  }

  /** Deleting a row takes its size off the total. */
  lemma DeleteTotal(rows: seq<ContentRow>, k: nat)
    requires UniqueIds(rows) && k < |rows|
    ensures TotalSize(WithoutId(rows, rows[k].id)) == TotalSize(rows) - rows[k].fileSize
  {
    DeleteRemovesOne(rows, k);
    SumOfRemove(rows, k, FileSizeOf);
  }

  /** The two counters an UPDATE can bump. */
  datatype Counter = Visits | Downloads

  function Bump(r: ContentRow, counter: Counter): ContentRow
  {
    match counter
    case Visits => r.(visits := r.visits + 1)
    case Downloads => r.(downloads := r.downloads + 1)
  }

  /** `UPDATE contents SET <counter> = <counter> + 1 WHERE id = ?`. */
  function Bumped(rows: seq<ContentRow>, id: string, counter: Counter): (r: seq<ContentRow>)
    ensures |r| == |rows|
    ensures forall k :: 0 <= k < |r| ==> r[k].id == rows[k].id
  {
    seq(|rows|, k requires 0 <= k < |rows| => if rows[k].id == id then Bump(rows[k], counter) else rows[k])
  }

  function CounterOf(counter: Counter): ContentRow -> int
  {
    match counter
    case Visits => VisitsOf
    case Downloads => DownloadsOf
  }

  /** An unknown id changes nothing. */
  lemma BumpUnknownId(rows: seq<ContentRow>, id: string, counter: Counter)
    requires !HasId(rows, id)
    ensures Bumped(rows, id, counter) == rows
  {
    var r := Bumped(rows, id, counter);
    forall k | 0 <= k < |rows| ensures r[k] == rows[k] {
      assert rows[k].id != id;
    }
  }

  /** With unique ids, an increment changes exactly one row, and only its counter. */
  lemma BumpChangesOne(rows: seq<ContentRow>, k: nat, counter: Counter)
    requires UniqueIds(rows) && k < |rows|
    ensures Bumped(rows, rows[k].id, counter) == rows[k := Bump(rows[k], counter)]
  {
    var r := Bumped(rows, rows[k].id, counter);
    forall j | 0 <= j < |rows| ensures r[j] == rows[k := Bump(rows[k], counter)][j] {
      if j != k {
        assert rows[j].id != rows[k].id;
      }
    }
  }

  /** ... so that counter, summed over the table, grows by exactly one. */
  lemma BumpAddsOne(rows: seq<ContentRow>, k: nat, counter: Counter)
    requires UniqueIds(rows) && k < |rows|
    ensures SumOf(Bumped(rows, rows[k].id, counter), CounterOf(counter))
            == SumOf(rows, CounterOf(counter)) + 1
  {
    BumpChangesOne(rows, k, counter);
    SumOfUpdate(rows, k, Bump(rows[k], counter), CounterOf(counter));
  }

  // ---------------------------------------------------------------------------
  // Per-category aggregates
  // ---------------------------------------------------------------------------

  /** One row of `SELECT category, COUNT(*), COALESCE(SUM(file_size), 0) ... GROUP BY category`. */
  datatype CategoryStat = CategoryStat(category: string, count: nat, totalSize: int)

  function CountOf(g: CategoryStat): int { g.count }
  function TotalSizeOf(g: CategoryStat): int { g.totalSize }
  function CategoryOf(g: CategoryStat): string { g.category }
  function Ones(r: ContentRow): int { 1 }

  /** The number of rows in `category`. */
  function CountIn(rows: seq<ContentRow>, category: string): nat
  {
    if rows == [] then 0
    else CountIn(rows[..|rows| - 1], category) + (if rows[|rows| - 1].category == category then 1 else 0)
  }

  /** The summed size of the rows in `category`. */
  function SizeIn(rows: seq<ContentRow>, category: string): int
  {
    if rows == [] then 0
    else SizeIn(rows[..|rows| - 1], category) + (if rows[|rows| - 1].category == category then rows[|rows| - 1].fileSize else 0)
  }

  predicate HasCategory(gs: seq<CategoryStat>, category: string)
  {
    exists i :: 0 <= i < |gs| && gs[i].category == category
  }

  /** `gs` is a correct grouping of `rows`: one entry per category present, each with the
      count and size of its rows, and nothing else. */
  ghost predicate GroupsOf(gs: seq<CategoryStat>, rows: seq<ContentRow>)
  {
    && Sorting.DistinctBy(gs, CategoryOf)
    && (forall i :: 0 <= i < |gs| ==>
          gs[i].count == CountIn(rows, gs[i].category) && gs[i].totalSize == SizeIn(rows, gs[i].category)
          && gs[i].count >= 1)
    && (forall k :: 0 <= k < |rows| ==> HasCategory(gs, rows[k].category))
    && SumOf(gs, CountOf) == |rows|
    && SumOf(gs, TotalSizeOf) == TotalSize(rows)
  }

  /** The index of the entry for `category`, or |gs| when there is none. */
  function IndexOfCategory(gs: seq<CategoryStat>, category: string): (i: nat)
    ensures i <= |gs|
    ensures i < |gs| ==> gs[i].category == category
    ensures i == |gs| ==> !HasCategory(gs, category)
  {
    if gs == [] then 0
    else if gs[|gs| - 1].category == category then |gs| - 1
    else
      var i := IndexOfCategory(gs[..|gs| - 1], category);
      if i == |gs| - 1 then |gs| else i
  }

  /** Counts one more row into the grouping. */
  function AddToGroups(gs: seq<CategoryStat>, row: ContentRow): seq<CategoryStat>
  {
    var i := IndexOfCategory(gs, row.category);
    if i == |gs| then gs + [CategoryStat(row.category, 1, row.fileSize)]
    else gs[i := CategoryStat(row.category, gs[i].count + 1, gs[i].totalSize + row.fileSize)]
  }

  /** The groups in order of first appearance. */
  function Groups(rows: seq<ContentRow>): seq<CategoryStat>
  {
    if rows == [] then [] else AddToGroups(Groups(rows[..|rows| - 1]), rows[|rows| - 1])
  }

  lemma SumOfUpdate<T>(s: seq<T>, i: nat, x: T, f: T -> int)
    requires i < |s|
    ensures SumOf(s[i := x], f) == SumOf(s, f) - f(s[i]) + f(x)
  {
    SumOfRemove(s, i, f);
    SumOfRemove(s[i := x], i, f);
    assert s[i := x][..i] + s[i := x][i + 1..] == s[..i] + s[i + 1..];
  }

  /** One more row adds to its own category's count and size only. */
  lemma CountStep(rows: seq<ContentRow>, row: ContentRow, c: string)
    ensures CountIn(rows + [row], c) == CountIn(rows, c) + (if row.category == c then 1 else 0)
    ensures SizeIn(rows + [row], c) == SizeIn(rows, c) + (if row.category == c then row.fileSize else 0)
  {
    var all := rows + [row];
    assert all[..|all| - 1] == rows;
  }

  /** One more row adds its size to the total. */
  lemma TotalSizeStep(rows: seq<ContentRow>, row: ContentRow)
    ensures TotalSize(rows + [row]) == TotalSize(rows) + row.fileSize
  {
    SumOfAppend(rows, [row], FileSizeOf);
    assert SumOf([row], FileSizeOf) == row.fileSize by { assert [row][..0] == []; }
  }

  /** Adding a row in a category not seen yet appends an entry for it. */
  lemma AddNewCategory(gs: seq<CategoryStat>, rows: seq<ContentRow>, row: ContentRow)
    requires GroupsOf(gs, rows) && !HasCategory(gs, row.category)
    ensures GroupsOf(gs + [CategoryStat(row.category, 1, row.fileSize)], rows + [row])
  {
    var c := row.category;
    var g := CategoryStat(c, 1, row.fileSize);
    var all := rows + [row];
    var r := gs + [g];
    CountAbsent(rows, c, gs);
    TotalSizeStep(rows, row);
    SumOfAppend(gs, [g], CountOf);
    SumOfAppend(gs, [g], TotalSizeOf);
    assert SumOf([g], CountOf) == 1 && SumOf([g], TotalSizeOf) == row.fileSize by { assert [g][..0] == []; }
    forall i | 0 <= i < |r|
      ensures r[i].count == CountIn(all, r[i].category) && r[i].totalSize == SizeIn(all, r[i].category)
    {
      CountStep(rows, row, r[i].category);
      if i < |gs| {
        assert r[i] == gs[i];
      }
    }
    forall k | 0 <= k < |all| ensures HasCategory(r, all[k].category) {
      if k < |rows| {
        var j :| 0 <= j < |gs| && gs[j].category == rows[k].category;
        assert r[j] == gs[j];
      } else {
        assert r[|gs|].category == c;
      }
    }
  }

  /** Adding a row in a category already seen updates that entry only. */
  lemma AddKnownCategory(gs: seq<CategoryStat>, rows: seq<ContentRow>, row: ContentRow, i: nat)
    requires GroupsOf(gs, rows) && i < |gs| && gs[i].category == row.category
    ensures GroupsOf(gs[i := CategoryStat(row.category, gs[i].count + 1, gs[i].totalSize + row.fileSize)],
                     rows + [row])
  {
    var c := row.category;
    var g := CategoryStat(c, gs[i].count + 1, gs[i].totalSize + row.fileSize);
    var all := rows + [row];
    var r := gs[i := g];
    TotalSizeStep(rows, row);
    SumOfUpdate(gs, i, g, CountOf);
    SumOfUpdate(gs, i, g, TotalSizeOf);
    forall j | 0 <= j < |r|
      ensures r[j].count == CountIn(all, r[j].category) && r[j].totalSize == SizeIn(all, r[j].category)
    {
      CountStep(rows, row, r[j].category);
      if j != i {
        assert gs[j].category != c;
      }
    }
    forall k | 0 <= k < |all| ensures HasCategory(r, all[k].category) {
      if k < |rows| {
        var j :| 0 <= j < |gs| && gs[j].category == rows[k].category;
        assert r[j].category == gs[j].category;
      } else {
        assert r[i].category == c;
      }
    }
  }

  lemma AddToGroupsCorrect(gs: seq<CategoryStat>, rows: seq<ContentRow>, row: ContentRow)
    requires GroupsOf(gs, rows)
    ensures GroupsOf(AddToGroups(gs, row), rows + [row])
  {
    var i := IndexOfCategory(gs, row.category);
    if i == |gs| {
      AddNewCategory(gs, rows, row);
    } else {
      AddKnownCategory(gs, rows, row, i);
    }
  }

  lemma {:induction false} NoRowsInCategory(rows: seq<ContentRow>, c: string)
    requires forall k :: 0 <= k < |rows| ==> rows[k].category != c
    ensures CountIn(rows, c) == 0 && SizeIn(rows, c) == 0
  {
    if rows != [] {
      NoRowsInCategory(rows[..|rows| - 1], c);
    }
  }

  /** A category with no entry in a correct grouping has no rows. */
  lemma CountAbsent(rows: seq<ContentRow>, c: string, gs: seq<CategoryStat>)
    requires GroupsOf(gs, rows) && !HasCategory(gs, c)
    ensures CountIn(rows, c) == 0 && SizeIn(rows, c) == 0
  {
    NoRowsInCategory(rows, c);
  }

  /** The grouping is correct for every table. */
  lemma {:induction false} GroupsCorrect(rows: seq<ContentRow>)
    ensures GroupsOf(Groups(rows), rows)
  {
    if rows == [] {
    } else {
      var prefix := rows[..|rows| - 1];
      GroupsCorrect(prefix);
      AddToGroupsCorrect(Groups(prefix), prefix, rows[|rows| - 1]);
      assert prefix + [rows[|rows| - 1]] == rows;
    }
  }

  /** `getContentsByCategory`: the groups, ordered by count, largest first. */
  function ContentsByCategory(rows: seq<ContentRow>): (r: seq<CategoryStat>)
    ensures Sorting.SortedDesc(r, CountOf)
  {
    Sorting.SortDesc(Groups(rows), CountOf)
  }

  /** A correct grouping listed in another order, with the same entries, distinct and
      with the same sums, is still a correct grouping. */
  lemma GroupsReordered(gs: seq<CategoryStat>, r: seq<CategoryStat>, rows: seq<ContentRow>)
    requires GroupsOf(gs, rows)
    requires forall x :: x in r <==> x in gs
    requires Sorting.DistinctBy(r, CategoryOf)
    requires SumOf(r, CountOf) == SumOf(gs, CountOf) && SumOf(r, TotalSizeOf) == SumOf(gs, TotalSizeOf)
    ensures GroupsOf(r, rows)
  {
    forall k | 0 <= k < |rows| ensures HasCategory(r, rows[k].category) {
      var j :| 0 <= j < |gs| && gs[j].category == rows[k].category;
      assert gs[j] in r;
    }
    forall i | 0 <= i < |r|
      ensures r[i].count == CountIn(rows, r[i].category) && r[i].totalSize == SizeIn(rows, r[i].category)
      ensures r[i].count >= 1
    {
      assert r[i] in gs;
    }
  }

  /** One entry per distinct category, each with its own count and size; the counts add up
      to the row count and the sizes to the total stored size. */
  lemma ContentsByCategoryCorrect(rows: seq<ContentRow>)
    ensures var r := ContentsByCategory(rows);
            && Sorting.DistinctBy(r, CategoryOf)
            && (forall i :: 0 <= i < |r| ==>
                  r[i].count == CountIn(rows, r[i].category) && r[i].totalSize == SizeIn(rows, r[i].category)
                  && r[i].count >= 1)
            && (forall k :: 0 <= k < |rows| ==> HasCategory(r, rows[k].category))
            && SumOf(r, CountOf) == ContentCount(rows)
            && SumOf(r, TotalSizeOf) == TotalSize(rows)
  {
    var gs := Groups(rows);
    GroupsCorrect(rows);
    Sorting.SortDescDistinct(gs, CountOf, CategoryOf);
    Sorting.SortDescSum(gs, CountOf, CountOf);
    Sorting.SortDescSum(gs, CountOf, TotalSizeOf);
    Sorting.SortDescMembers(gs, CountOf);
    GroupsReordered(gs, ContentsByCategory(rows), rows);
  }


  // ---------------------------------------------------------------------------
  // Settings
  // ---------------------------------------------------------------------------

  /** `SELECT value FROM settings WHERE key = ?`. */
  function GetSetting(settings: map<string, string>, key: string): (r: Option<string>)
    ensures r.Some? <==> key in settings
    ensures r.Some? ==> r.value == settings[key]
  {
    if key in settings then Some(settings[key]) else None
  }

  /** `getSetting(key) || fallback`: an absent or empty value gives the fallback. */
  function SettingOr(settings: map<string, string>, key: string, fallback: string): (r: string)
    ensures key in settings && settings[key] != "" ==> r == settings[key]
    ensures key !in settings || settings[key] == "" ==> r == fallback
  {
    match GetSetting(settings, key)
    case Some(v) => if v != "" then v else fallback
    case None => fallback
  }

  /** `INSERT OR IGNORE INTO settings VALUES ('max_storage_bytes', '1099511627776')`. */
  function WithDefaultSetting(settings: map<string, string>): (r: map<string, string>)
    ensures MAX_STORAGE_KEY in r
    ensures MAX_STORAGE_KEY in settings ==> r == settings
    ensures MAX_STORAGE_KEY !in settings ==> r[MAX_STORAGE_KEY] == DEFAULT_MAX_STORAGE
    ensures forall k :: k != MAX_STORAGE_KEY ==> (k in r <==> k in settings)
    ensures forall k :: k != MAX_STORAGE_KEY && k in r ==> r[k] == settings[k]
  {
    if MAX_STORAGE_KEY in settings then settings else settings[MAX_STORAGE_KEY := DEFAULT_MAX_STORAGE]
  }

  /** Running the default insert again changes nothing. */
  lemma DefaultSettingIdempotent(settings: map<string, string>)
    ensures WithDefaultSetting(WithDefaultSetting(settings)) == WithDefaultSetting(settings)
  {
  }

  // ---------------------------------------------------------------------------
  // The database
  // ---------------------------------------------------------------------------

  /** The open database: the rows of `contents` in insertion order, and `settings`. */
  class Database {
    var contents: seq<ContentRow>
    var settings: map<string, string>

    ghost predicate Valid()
      reads this
    {
      UniqueIds(contents)
    }

    /** Opening a new database file: empty tables, then the default quota. */
    constructor ()
      ensures Valid()
      ensures contents == []
      ensures settings == map[MAX_STORAGE_KEY := DEFAULT_MAX_STORAGE]
    {
      contents := [];
      settings := WithDefaultSetting(map[]);
    }

    /** The default-setting insert run each time the module loads. */
    method EnsureDefaultSetting()
      modifies this
      ensures settings == WithDefaultSetting(old(settings))
      ensures contents == old(contents)
    {
      if MAX_STORAGE_KEY !in settings {
        settings := settings[MAX_STORAGE_KEY := DEFAULT_MAX_STORAGE];
      }
    }

    /** `insertContent`: one more row with zeroed counters, unless `file_size` is NULL
        (NOT NULL fails) or the id is taken (PRIMARY KEY fails); a failed insert changes nothing. */
    method InsertContent(c: NewContent, now: int) returns (error: Option<InsertError>)
      requires Valid()
      modifies this
      ensures Valid()
      ensures c.fileSize.None? ==> error == Some(NullFileSize)
      ensures c.fileSize.Some? && HasId(old(contents), c.id) ==> error == Some(DuplicateId)
      ensures error.None? <==> c.fileSize.Some? && !HasId(old(contents), c.id)
      ensures error.None? ==> contents == old(contents) + [NewRow(c, now)]
      ensures error.Some? ==> contents == old(contents)
      ensures settings == old(settings)
    {
      if c.fileSize.None? {
        return Some(NullFileSize);
      }
      if FindById(contents, c.id).Some? {
        return Some(DuplicateId);
      }
      contents := contents + [NewRow(c, now)];
      error := None;
    }

    /** `deleteContent`. */
    method DeleteContent(id: string)
      requires Valid()
      modifies this
      ensures Valid()
      ensures contents == WithoutId(old(contents), id)
      ensures settings == old(settings)
    {
      contents := WithoutId(contents, id);
      WithoutIdKeepsUnique(old(contents), id);
    }

    /** `incrementVisitCount`. */
    method IncrementVisitCount(id: string)
      requires Valid()
      modifies this
      ensures Valid()
      ensures contents == Bumped(old(contents), id, Visits)
      ensures settings == old(settings)
    {
      contents := Bumped(contents, id, Visits);
    }

    /** `incrementDownloadCount`. */
    method IncrementDownloadCount(id: string)
      requires Valid()
      modifies this
      ensures Valid()
      ensures contents == Bumped(old(contents), id, Downloads)
      ensures settings == old(settings)
    {
      contents := Bumped(contents, id, Downloads);
    }

    /** `setSetting`: INSERT OR REPLACE. */
    method SetSetting(key: string, value: string)
      modifies this
      ensures settings == old(settings)[key := value]
      ensures contents == old(contents)
    {
      settings := settings[key := value];
    }
  }

  /** Deleting keeps the ids unique. */
  lemma {:induction false} WithoutIdKeepsUnique(rows: seq<ContentRow>, id: string)
    requires UniqueIds(rows)
    ensures UniqueIds(WithoutId(rows, id))
  {
    if rows != [] {
      var rest := WithoutId(rows[1..], id);
      WithoutIdKeepsUnique(rows[1..], id);
      WithoutIdMembers(rows[1..], id);
      if rows[0].id != id {
        var r := [rows[0]] + rest;
        forall j | 1 <= j < |r| ensures r[0].id != r[j].id {
          assert r[j] in rows[1..];
        }
      }
    }
  }

  /** `setSetting(k, v)` then `getSetting(k)` gives `v`; every other key reads as before. */
  lemma SetThenGet(settings: map<string, string>, key: string, value: string, other: string)
    requires other != key
    ensures GetSetting(settings[key := value], key) == Some(value)
    ensures GetSetting(settings[key := value], other) == GetSetting(settings, other)
  {
  }

  /** After a successful insert the row can be found by its id, with both counters at zero,
      and the total grows by its size. */
  lemma InsertThenFind(rows: seq<ContentRow>, c: NewContent, now: int)
    requires UniqueIds(rows) && c.fileSize.Some? && !HasId(rows, c.id)
    ensures UniqueIds(rows + [NewRow(c, now)])
    ensures FindById(rows + [NewRow(c, now)], c.id) == Some(NewRow(c, now))
    ensures TotalSize(rows + [NewRow(c, now)]) == TotalSize(rows) + c.fileSize.value
  {
    var all := rows + [NewRow(c, now)];
    assert UniqueIds(all) by {
      forall i, j | 0 <= i < j < |all| ensures all[i].id != all[j].id {
        if j == |rows| {
          assert all[i] == rows[i];
        }
      }
    }
    FindByIdUnique(all, |rows|);
    SumOfAppend(rows, [NewRow(c, now)], FileSizeOf);
    assert SumOf([NewRow(c, now)], FileSizeOf) == c.fileSize.value by {
      assert [NewRow(c, now)][..0] == [];
    }
  }
}
