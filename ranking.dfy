/** The scoreboard read side: the `user_scores` row, competition ranking
    under the key (total score descending, display name ascending), page
    arithmetic, the listing of one page and the rank lookup of one user. */
module Ranking {
  import opened Common
  import opened Sorting

  const AnonymousName := "Anonymous"

  /** One `user_scores` row (one per user). */
  datatype UserScore = UserScore(userId: Id, displayName: string, totalScore: int,
                                 quizzesCompleted: int, lastUpdated: int)

  /** The table's check constraints. */
  predicate RowOk(r: UserScore)
  {
    r.totalScore >= 0 && r.quizzesCompleted >= 0
  }

  predicate UniqueUsers(rows: seq<UserScore>)
  {
    forall i, j :: 0 <= i < |rows| && 0 <= j < |rows| && rows[i].userId == rows[j].userId ==> i == j
  }

  /** SQLite's default (binary) text order, which for UTF-8 text is code
      point order: a proper prefix sorts first. */
  predicate NameLess(a: string, b: string)
  {
    if a == [] then b != []
    else if b == [] then false
    else a[0] < b[0] || (a[0] == b[0] && NameLess(a[1..], b[1..]))
  }

  lemma {:induction false} NameLessIrreflexive(a: string)
    ensures !NameLess(a, a)
  {
    if a != [] {
      NameLessIrreflexive(a[1..]);
    }
  }

  lemma {:induction false} NameLessTransitive(a: string, b: string, c: string)
    requires NameLess(a, b) && NameLess(b, c)
    ensures NameLess(a, c)
  {
    if a != [] && b != [] && c != [] && a[0] == b[0] && b[0] == c[0] {
      NameLessTransitive(a[1..], b[1..], c[1..]);
    }
  }

  /** Two different names are always ordered one way or the other. */
  lemma {:induction false} NameLessTotal(a: string, b: string)
    requires a != b
    ensures NameLess(a, b) || NameLess(b, a)
  {
    if a != [] && b != [] && a[0] == b[0] {
      assert a == [a[0]] + a[1..] && b == [b[0]] + b[1..];
      NameLessTotal(a[1..], b[1..]);
    }
  }

  /** `a` sorts strictly before `b` under `ORDER BY total_score DESC,
      display_name ASC`. */
  predicate Ahead(a: UserScore, b: UserScore)
  {
    a.totalScore > b.totalScore || (a.totalScore == b.totalScore && NameLess(a.displayName, b.displayName))
  }

  /** Equal sort keys: neither row is ahead of the other. */
  predicate SameKey(a: UserScore, b: UserScore)
  {
    a.totalScore == b.totalScore && a.displayName == b.displayName
  }

  lemma AheadIsStrictOrder()
    ensures StrictOrder(Ahead)
  {
    forall a | true
      ensures !Ahead(a, a)
    {
      NameLessIrreflexive(a.displayName);
    }
    forall a, b, c | Ahead(a, b) && Ahead(b, c)
      ensures Ahead(a, c)
    {
      if a.totalScore == b.totalScore == c.totalScore {
        NameLessTransitive(a.displayName, b.displayName, c.displayName);
      }
    }
  }

  /** Any two rows either share a key or one is ahead of the other. */
  lemma AheadTotal(a: UserScore, b: UserScore)
    ensures SameKey(a, b) || Ahead(a, b) || Ahead(b, a)
  {
    if a.totalScore == b.totalScore && a.displayName != b.displayName {
      NameLessTotal(a.displayName, b.displayName);
    }
  }

  /** How many of `rows` are strictly ahead of `r`. */
  function CountAhead(rows: seq<UserScore>, r: UserScore): (n: nat)
    ensures n <= |rows|
  {
    if rows == [] then 0
    else (if Ahead(rows[0], r) then 1 else 0) + CountAhead(rows[1..], r)
  }

  /** `RANK() OVER (ORDER BY total_score DESC, display_name ASC)`: one more
      than the number of rows strictly ahead. */
  function Rank(rows: seq<UserScore>, r: UserScore): (rank: int)
    ensures 1 <= rank <= |rows| + 1
  {
    1 + CountAhead(rows, r)
  }

  /** The whole table in scoreboard order. */
  function Ranked(rows: seq<UserScore>): (s: seq<UserScore>)
    ensures multiset(s) == multiset(rows)
    ensures |s| == |rows|
  {
    Sort(rows, Ahead)
  }

  /** The scoreboard order keeps every row behind the rows ahead of it. */
  lemma RankedOrdered(rows: seq<UserScore>)
    ensures Ordered(Ranked(rows), Ahead)
  {
    AheadIsStrictOrder();
    SortOrdered(rows, Ahead);
  }

  lemma {:induction false} CountAheadSameKey(rows: seq<UserScore>, a: UserScore, b: UserScore)
    requires SameKey(a, b)
    ensures CountAhead(rows, a) == CountAhead(rows, b)
  {
    if rows != [] {
      CountAheadSameKey(rows[1..], a, b);
    }
  }

  /** Whatever is ahead of `a` is ahead of anything `a` is ahead of, and
      `a` itself then counts too. */
  lemma {:induction false} CountAheadMonotone(rows: seq<UserScore>, a: UserScore, b: UserScore)
    requires Ahead(a, b)
    ensures CountAhead(rows, a) <= CountAhead(rows, b)
    ensures a in rows ==> CountAhead(rows, a) < CountAhead(rows, b)
  {
    AheadIsStrictOrder();
    if rows != [] {
      CountAheadMonotone(rows[1..], a, b);
      if rows[0] != a {
        assert a in rows ==> a in rows[1..];
      }
    }
  }

  /** Competition ranking: two rows of the table share a rank exactly when
      they share both the score and the display name; otherwise the one
      ahead has the smaller rank. */
  lemma RankTieIffSameKey(rows: seq<UserScore>, a: UserScore, b: UserScore)
    requires a in rows && b in rows
    ensures Rank(rows, a) == Rank(rows, b) <==> SameKey(a, b)
    ensures Ahead(a, b) ==> Rank(rows, a) < Rank(rows, b)
  {
    AheadTotal(a, b);
    if SameKey(a, b) {
      CountAheadSameKey(rows, a, b);
    } else if Ahead(a, b) {
      CountAheadMonotone(rows, a, b);
    } else {
      CountAheadMonotone(rows, b, a);
    }
    if Ahead(a, b) {
      CountAheadMonotone(rows, a, b);
    }
  }

  lemma {:induction false} CountAheadInsert(x: UserScore, s: seq<UserScore>, r: UserScore)
    ensures CountAhead(Insert(x, s, Ahead), r) == CountAhead(s, r) + (if Ahead(x, r) then 1 else 0)
  {
    if s != [] && !Ahead(x, s[0]) {
      CountAheadInsert(x, s[1..], r);
      assert Insert(x, s, Ahead)[1..] == Insert(x, s[1..], Ahead);
    }
  }

  /** Ordering the table does not change how many rows are ahead. */
  lemma {:induction false} CountAheadSort(s: seq<UserScore>, r: UserScore)
    ensures CountAhead(Sort(s, Ahead), r) == CountAhead(s, r)
  {
    if s != [] {
      var p := s[..|s| - 1];
      assert p + [s[|s| - 1]] == s;
      CountAheadSort(p, r);
      CountAheadInsert(s[|s| - 1], Sort(p, Ahead), r);
      CountAheadSplit(p, [s[|s| - 1]], r);
    }
  }

  lemma {:induction false} CountAheadSplit(s: seq<UserScore>, t: seq<UserScore>, r: UserScore)
    ensures CountAhead(s + t, r) == CountAhead(s, r) + CountAhead(t, r)
  {
    if s != [] {
      CountAheadSplit(s[1..], t, r);
      assert (s + t)[1..] == s[1..] + t;
    } else {
      assert s + t == t;
    }
  }

  lemma {:induction false} CountAheadNone(s: seq<UserScore>, r: UserScore)
    requires forall i :: 0 <= i < |s| ==> !Ahead(s[i], r)
    ensures CountAhead(s, r) == 0
  {
    if s != [] {
      CountAheadNone(s[1..], r);
    }
  }

  /** In scoreboard order, the rows ahead of the row at position `p` all
      come before it, so its rank is at most `p + 1`. */
  lemma RankAtMostPosition(rows: seq<UserScore>, p: nat)
    requires p < |rows|
    ensures Rank(rows, Ranked(rows)[p]) <= p + 1
  {
    var s := Ranked(rows);
    var r := s[p];
    assert s[..p] + s[p..] == s;
    CountAheadSort(rows, r);
    CountAheadSplit(s[..p], s[p..], r);
    NoneAheadFromPosition(rows, p);
  }

  /** No row from position `p` on is ahead of the row at `p`. */
  lemma NoneAheadFromPosition(rows: seq<UserScore>, p: nat)
    requires p < |rows|
    ensures CountAhead(Ranked(rows)[p..], Ranked(rows)[p]) == 0
  {
    var s := Ranked(rows);
    RankedOrdered(rows);
    forall m | 0 <= m < |s[p..]|
      ensures !Ahead(s[p..][m], s[p])
    {
      assert s[p..][m] == s[p + m];
      if m == 0 {
        NameLessIrreflexive(s[p].displayName);
      }
    }
    CountAheadNone(s[p..], s[p]);
  }

  /** Ranks never decrease down the scoreboard. */
  lemma RanksNondecreasing(rows: seq<UserScore>, i: nat, j: nat)
    requires i <= j < |rows|
    ensures Rank(rows, Ranked(rows)[i]) <= Rank(rows, Ranked(rows)[j])
  {
    var s := Ranked(rows);
    RankedOrdered(rows);
    assert s[i] in multiset(rows) && s[j] in multiset(rows);
    AheadTotal(s[i], s[j]);
    if i < j {
      assert !Ahead(s[j], s[i]);
    }
    if SameKey(s[i], s[j]) {
      CountAheadSameKey(rows, s[i], s[j]);
    } else if Ahead(s[i], s[j]) {
      CountAheadMonotone(rows, s[i], s[j]);
    } else {
      AheadIsStrictOrder();
    }
  }

  /** The `Pagination` block of a scoreboard response. */
  datatype Pagination = Pagination(page: int, pageSize: int, totalEntries: int, totalPages: int,
                                   hasNext: bool, hasPrev: bool)

  datatype ScoreboardEntry = ScoreboardEntry(rank: int, userId: Id, displayName: string,
                                             totalScore: int, quizzesCompleted: int)

  datatype ScoreboardPage = ScoreboardPage(entries: seq<ScoreboardEntry>, pagination: Pagination)

  /** `max(1, ceil(total / page_size))`: the fewest pages that hold every
      row, and at least one even when there are none. */
  function TotalPages(total: nat, pageSize: nat): (n: nat)
    requires pageSize >= 1
    ensures n >= 1
  {
    Max(1, Quot(total + pageSize - 1, pageSize))
  }

  /** Integer division `x // d`, by repeated subtraction, so that the page
      arithmetic unfolds without nonlinear reasoning. */
  function Quot(x: nat, d: nat): nat
    requires d >= 1
    decreases x
  {
    if x < d then 0 else 1 + Quot(x - d, d)
  }

  lemma {:induction false} QuotIsDiv(x: nat, d: nat)
    requires d >= 1
    ensures Quot(x, d) == x / d
    decreases x
  {
    if x < d {
      WindowPosition(x, 0, d);
    } else {
      QuotIsDiv(x - d, d);
      var q := (x - d) / d;
      DivBounds(x - d, d);
      assert (q + 1) * d == q * d + d;
      WindowPosition(x, q + 1, d);
    }
  }

  /** The page count is the fewest pages that hold every row. */
  lemma TotalPagesFits(total: nat, pageSize: nat)
    requires pageSize >= 1
    ensures var n := TotalPages(total, pageSize);
      total <= n * pageSize && (n == 1 || (n - 1) * pageSize < total)
  {
    QuotIsDiv(total + pageSize - 1, pageSize);
    DivBounds(total + pageSize - 1, pageSize);
  }

  lemma DivBounds(x: nat, d: nat)
    requires d >= 1
    ensures (x / d) * d <= x < (x / d) * d + d
  {
  }

  /** The requested page, pushed into [1, total_pages]. */
  function ClampPage(page: int, totalPages: nat): (p: int)
    requires totalPages >= 1
    ensures 1 <= p <= totalPages
    ensures 1 <= page <= totalPages ==> p == page
    ensures page < 1 ==> p == 1
    ensures page > totalPages ==> p == totalPages
  {
    if page < 1 then 1 else if page > totalPages then totalPages else page
  }

  /** The `OFFSET` of a page: the rows on the pages before it. */
  function PageStart(page: int, pageSize: nat): nat
    requires page >= 1
  {
    (page - 1) * pageSize
  }

  function EntryOf(rows: seq<UserScore>, r: UserScore): ScoreboardEntry
  {
    ScoreboardEntry(Rank(rows, r), r.userId, r.displayName, r.totalScore, r.quizzesCompleted)
  }

  /** `ScoreboardService.get_scoreboard`: one page of the table in
      scoreboard order, each row with its rank, and the page's metadata.
      The page size bounds are those the `Pagination` schema demands. */
  function GetScoreboard(rows: seq<UserScore>, page: int, pageSize: int): (r: ScoreboardPage)
    requires 10 <= pageSize <= 100
    ensures r.pagination.totalEntries == |rows|
    ensures r.pagination.pageSize == pageSize
    ensures r.pagination.totalPages == TotalPages(|rows|, pageSize)
    ensures 1 <= r.pagination.page <= r.pagination.totalPages
    ensures 1 <= page <= r.pagination.totalPages ==> r.pagination.page == page
    ensures r.pagination.hasNext <==> r.pagination.page < r.pagination.totalPages
    ensures r.pagination.hasPrev <==> r.pagination.page > 1
    ensures |r.entries| == if PageStart(r.pagination.page, pageSize) >= |rows| then 0
                           else Min(pageSize, |rows| - PageStart(r.pagination.page, pageSize))
    ensures forall k :: 0 <= k < |r.entries| ==>
      PageStart(r.pagination.page, pageSize) + k < |rows|
      && r.entries[k] == EntryOf(rows, Ranked(rows)[PageStart(r.pagination.page, pageSize) + k])
  {
    var totalPages := TotalPages(|rows|, pageSize);
    var p := ClampPage(page, totalPages);
    var window := Window(Ranked(rows), PageStart(p, pageSize), pageSize);
    var entries := seq(|window|, k requires 0 <= k < |window| => EntryOf(rows, window[k]));
    ScoreboardPage(entries, Pagination(p, pageSize, |rows|, totalPages, p < totalPages, p > 1))
  }

  /** The row at scoreboard position `i` is listed on page
      `i / page_size + 1`, which exists, and on no other page. */
  lemma RowListedOnItsPage(rows: seq<UserScore>, pageSize: int, i: nat, page: int)
    requires 10 <= pageSize <= 100
    requires i < |rows|
    ensures 1 <= PageOf(i, pageSize) <= TotalPages(|rows|, pageSize)
    ensures var r := GetScoreboard(rows, page, pageSize);
      var start := PageStart(r.pagination.page, pageSize);
      start <= i < start + |r.entries| <==> r.pagination.page == PageOf(i, pageSize)
  {
    var n := TotalPages(|rows|, pageSize);
    TotalPagesFits(|rows|, pageSize);
    var q := i / pageSize;
    QuotIsDiv(i, pageSize);
    DivBounds(i, pageSize);
    PageBound(q, n, pageSize, i, |rows|);
    var r := GetScoreboard(rows, page, pageSize);
    var p := r.pagination.page;
    WindowPosition(i, p - 1, pageSize);
  }

  lemma PageBound(q: nat, n: nat, pageSize: nat, i: nat, total: nat)
    requires pageSize >= 1
    requires q * pageSize <= i < total <= n * pageSize
    ensures q + 1 <= n
  {
    MulMonotone(n, q, pageSize);
  }

  lemma MulMonotone(a: nat, b: nat, c: nat)
    ensures a <= b ==> a * c <= b * c
  {
  }

  /** Position `i` sits inside the window of page index `pi` exactly when
      `pi == i / pageSize`. */
  lemma WindowPosition(i: nat, pi: nat, pageSize: nat)
    requires pageSize >= 1
    ensures pi * pageSize <= i < pi * pageSize + pageSize <==> pi == i / pageSize
  {
    var q := i / pageSize;
    DivBounds(i, pageSize);
    assert (pi + 1) * pageSize == pi * pageSize + pageSize;
    assert (q + 1) * pageSize == q * pageSize + pageSize;
    MulMonotone(pi + 1, q, pageSize);
    MulMonotone(q + 1, pi, pageSize);
  }

  /** Entries down a page carry ranks that never decrease. */
  lemma PageRanksNondecreasing(rows: seq<UserScore>, page: int, pageSize: int, a: nat, b: nat)
    requires 10 <= pageSize <= 100
    requires a <= b < |GetScoreboard(rows, page, pageSize).entries|
    ensures GetScoreboard(rows, page, pageSize).entries[a].rank <= GetScoreboard(rows, page, pageSize).entries[b].rank
  {
    var r := GetScoreboard(rows, page, pageSize);
    var start := PageStart(r.pagination.page, pageSize);
    RanksNondecreasing(rows, start + a, start + b);
  }

  /** Two different pages share no user: with one row per user, each user
      is listed on at most one page. */
  lemma PagesDisjoint(rows: seq<UserScore>, p1: int, p2: int, pageSize: int, a: nat, b: nat)
    requires 10 <= pageSize <= 100
    requires UniqueUsers(rows)
    requires GetScoreboard(rows, p1, pageSize).pagination.page != GetScoreboard(rows, p2, pageSize).pagination.page
    requires a < |GetScoreboard(rows, p1, pageSize).entries|
    requires b < |GetScoreboard(rows, p2, pageSize).entries|
    ensures GetScoreboard(rows, p1, pageSize).entries[a].userId != GetScoreboard(rows, p2, pageSize).entries[b].userId
  {
    var i := EntryPosition(rows, p1, pageSize, a);
    var j := EntryPosition(rows, p2, pageSize, b);
    SamePositionSamePage(GetScoreboard(rows, p1, pageSize).pagination.page, a,
                         GetScoreboard(rows, p2, pageSize).pagination.page, b, pageSize);
    RankedUsersDistinct(rows, i, j);
  }

  /** The scoreboard position of entry `a` of a page, and its user. */
  lemma EntryPosition(rows: seq<UserScore>, page: int, pageSize: int, a: nat) returns (i: nat)
    requires 10 <= pageSize <= 100
    requires a < |GetScoreboard(rows, page, pageSize).entries|
    ensures a < pageSize && i < |rows|
    ensures i == PageStart(GetScoreboard(rows, page, pageSize).pagination.page, pageSize) + a
    ensures GetScoreboard(rows, page, pageSize).entries[a].userId == Ranked(rows)[i].userId
  {
    var r := GetScoreboard(rows, page, pageSize);
    i := PageStart(r.pagination.page, pageSize) + a;
  }

  /** Sorting keeps the users of the table distinct. */
  lemma RankedUsersDistinct(rows: seq<UserScore>, i: nat, j: nat)
    requires UniqueUsers(rows)
    requires i < |rows| && j < |rows| && i != j
    ensures Ranked(rows)[i].userId != Ranked(rows)[j].userId
  {
    assert DistinctBy(rows, (u: UserScore) => u.userId);
    SortDistinct(rows, Ahead, (u: UserScore) => u.userId);
  }

  /** Two pages hold the same position only if they are the same page. */
  lemma SamePositionSamePage(p1: int, a: nat, p2: int, b: nat, pageSize: int)
    requires pageSize >= 1 && p1 >= 1 && p2 >= 1 && a < pageSize && b < pageSize
    ensures PageStart(p1, pageSize) + a == PageStart(p2, pageSize) + b ==> p1 == p2
  {
    WindowPosition(PageStart(p1, pageSize) + a, p1 - 1, pageSize);
    WindowPosition(PageStart(p2, pageSize) + b, p2 - 1, pageSize);
  }

  /** Every listed entry meets the `ScoreboardEntry` bounds when the table
      meets its check constraints. */
  lemma EntriesWithinSchema(rows: seq<UserScore>, page: int, pageSize: int)
    requires 10 <= pageSize <= 100
    requires forall i :: 0 <= i < |rows| ==> RowOk(rows[i])
    ensures forall e :: e in GetScoreboard(rows, page, pageSize).entries ==>
      e.rank >= 1 && e.totalScore >= 0 && e.quizzesCompleted >= 0
  {
    var r := GetScoreboard(rows, page, pageSize);
    var s := Ranked(rows);
    forall k | 0 <= k < |r.entries|
      ensures r.entries[k].totalScore >= 0 && r.entries[k].quizzesCompleted >= 0
    {
      assert s[PageStart(r.pagination.page, pageSize) + k] in multiset(rows);
    }
  }

  /** The `MyRankResponse` of `get_user_rank`. */
  datatype MyRank = MyRank(userId: Id, rank: int, page: int, totalScore: int, quizzesCompleted: int)

  function UserIndex(rows: seq<UserScore>, userId: Id): (r: Option<nat>)
    ensures r.Some? ==> r.value < |rows| && rows[r.value].userId == userId
    ensures r.None? <==> forall i :: 0 <= i < |rows| ==> rows[i].userId != userId
  {
    FirstIndex(rows, (u: UserScore) => u.userId == userId)
  }

  /** The page, numbered from 1, holding scoreboard position `pos`. */
  function PageOf(pos: nat, pageSize: int): (page: int)
    requires pageSize >= 1
    ensures page >= 1
  {
    Quot(pos, pageSize) + 1
  }

  /** `get_user_rank` as written: the page is computed from the rank,
      `(rank - 1) // page_size + 1`, which is the page of the first row
      sharing the user's sort key rather than the page of the user. */
  function GetUserRankAsWritten(rows: seq<UserScore>, userId: Id, pageSize: int): (r: Option<MyRank>)
    requires pageSize >= 1
    ensures r.None? <==> UserIndex(rows, userId).None?
    ensures r.Some? ==> r.value.rank == Rank(rows, rows[UserIndex(rows, userId).value])
    ensures r.Some? ==> r.value.page == PageOf(r.value.rank - 1, pageSize)
    ensures r.Some? ==> var u := rows[UserIndex(rows, userId).value];
      && r.value.userId == userId
      && r.value.totalScore == u.totalScore && r.value.quizzesCompleted == u.quizzesCompleted
  {
    match UserIndex(rows, userId)
    case None => None
    case Some(k) =>
      var u := rows[k];
      var rank := Rank(rows, u);
      Some(MyRank(userId, rank, PageOf(rank - 1, pageSize), u.totalScore, u.quizzesCompleted))
  }

  /** `get_user_rank` with the page taken from the user's position in the
      same order the scoreboard is listed in. None exactly when the user
      has no row. */
  function GetUserRank(rows: seq<UserScore>, userId: Id, pageSize: int): (r: Option<MyRank>)
    requires pageSize >= 1
    ensures r.None? <==> UserIndex(rows, userId).None?
    ensures r.Some? ==> var u := rows[UserIndex(rows, userId).value];
      && r.value.userId == userId && r.value.rank == Rank(rows, u)
      && r.value.totalScore == u.totalScore && r.value.quizzesCompleted == u.quizzesCompleted
    ensures r.Some? && UserIndex(Ranked(rows), userId).Some? ==>
      r.value.page == PageOf(UserIndex(Ranked(rows), userId).value, pageSize)
  {
    match UserIndex(rows, userId)
    case None => None
    case Some(k) =>
      var u := rows[k];
      var pos: nat := match UserIndex(Ranked(rows), userId) case Some(i) => i case None => 0;
      Some(MyRank(userId, Rank(rows, u), PageOf(pos, pageSize), u.totalScore, u.quizzesCompleted))
  }

  /** A user with a row has a position in scoreboard order, holding that
      row. */
  lemma RankedPosition(rows: seq<UserScore>, userId: Id) returns (i: nat)
    requires UniqueUsers(rows)
    requires UserIndex(rows, userId).Some?
    ensures UserIndex(Ranked(rows), userId) == Some(i)
    ensures i < |rows| && Ranked(rows)[i] == rows[UserIndex(rows, userId).value]
  {
    var s := Ranked(rows);
    var u := rows[UserIndex(rows, userId).value];
    assert u in multiset(s);
    i := UserIndex(s, userId).value;
    assert s[i] in multiset(rows);
  }

  /** The page `GetUserRank` reports is the scoreboard page that lists the
      user, with the rank the listing shows. */
  lemma UserRankPageListsUser(rows: seq<UserScore>, userId: Id, pageSize: int)
    requires 10 <= pageSize <= 100
    requires UniqueUsers(rows)
    requires GetUserRank(rows, userId, pageSize).Some?
    ensures var m := GetUserRank(rows, userId, pageSize).value;
      exists e :: e in GetScoreboard(rows, m.page, pageSize).entries && e.userId == userId && e.rank == m.rank
  {
    var m := GetUserRank(rows, userId, pageSize).value;
    var i := UserRankPosition(rows, userId, pageSize);
    var k := ListedAt(rows, pageSize, i);
    var r := GetScoreboard(rows, m.page, pageSize);
    assert r.entries[k] in r.entries;
  }

  /** Where on its own page the row at scoreboard position `i` is listed. */
  lemma ListedAt(rows: seq<UserScore>, pageSize: int, i: nat) returns (k: nat)
    requires 10 <= pageSize <= 100
    requires i < |rows|
    ensures var r := GetScoreboard(rows, PageOf(i, pageSize), pageSize);
      k < |r.entries| && r.entries[k] == EntryOf(rows, Ranked(rows)[i])
  {
    var page := PageOf(i, pageSize);
    RowListedOnItsPage(rows, pageSize, i, page);
    var r := GetScoreboard(rows, page, pageSize);
    assert r.pagination.page == page;
    k := i - PageStart(page, pageSize);
  }

  /** The as-written page is never later than the user's page: the two
      differ only when rows sharing the user's key sit before it across a
      page boundary. */
  lemma AsWrittenPageNotAfter(rows: seq<UserScore>, userId: Id, pageSize: int)
    requires pageSize >= 1
    requires UniqueUsers(rows)
    requires GetUserRank(rows, userId, pageSize).Some?
    ensures GetUserRankAsWritten(rows, userId, pageSize).value.page <= GetUserRank(rows, userId, pageSize).value.page
    ensures GetUserRankAsWritten(rows, userId, pageSize).value.rank == GetUserRank(rows, userId, pageSize).value.rank
  {
    var i := UserRankPosition(rows, userId, pageSize);
    var w := GetUserRankAsWritten(rows, userId, pageSize).value;
    PageOfMonotone(w.rank - 1, i, pageSize);
  }

  /** Where the user sits in scoreboard order: the reported page holds
      that position, and the rank is at most one past it. */
  lemma UserRankPosition(rows: seq<UserScore>, userId: Id, pageSize: int) returns (i: nat)
    requires pageSize >= 1
    requires UniqueUsers(rows)
    requires GetUserRank(rows, userId, pageSize).Some?
    ensures i < |rows| && UserIndex(Ranked(rows), userId) == Some(i)
    ensures GetUserRank(rows, userId, pageSize).value.page == PageOf(i, pageSize)
    ensures GetUserRank(rows, userId, pageSize).value.rank == Rank(rows, Ranked(rows)[i]) <= i + 1
  {
    i := RankedPosition(rows, userId);
    RankAtMostPosition(rows, i);
  }

  lemma PageOfMonotone(a: nat, b: nat, pageSize: int)
    requires a <= b && pageSize >= 1
    ensures PageOf(a, pageSize) <= PageOf(b, pageSize)
  {
    QuotIsDiv(a, pageSize);
    QuotIsDiv(b, pageSize);
    DivMonotone(a, b, pageSize);
  }

  lemma DivMonotone(a: nat, b: nat, d: nat)
    requires a <= b && d >= 1
    ensures a / d <= b / d
  {
    DivBounds(a, d);
    DivBounds(b, d);
    PageBound(a / d, b / d + 1, d, a, b + 1);
  }

  /** Eleven users who share the default name and a score of 0 all rank 1;
      with ten per page the eleventh is listed on page 2, yet `get_user_rank`
      as written reports page 1, where that user does not appear. */
  lemma RankPageCounterexample()
    ensures var rows := seq(11, i requires 0 <= i < 11 => UserScore(i, AnonymousName, 0, 0, 0));
      && GetUserRankAsWritten(rows, 10, 10).Some? && GetUserRankAsWritten(rows, 10, 10).value.page == 1
      && GetUserRank(rows, 10, 10).Some? && GetUserRank(rows, 10, 10).value.page == 2
      && forall e :: e in GetScoreboard(rows, 1, 10).entries ==> e.userId != 10
  {
    var rows := seq(11, i requires 0 <= i < 11 => UserScore(i, AnonymousName, 0, 0, 0));
    assert Ranked(rows) == rows by {
      forall i, j | 0 <= i < |rows| && 0 <= j < |rows|
        ensures !Ahead(rows[i], rows[j])
      {
        NameLessIrreflexive(AnonymousName);
      }
      SortAllTied(rows, Ahead);
    }
    assert UserIndex(rows, 10) == Some(10);
    assert Rank(rows, rows[10]) == 1 by {
      NameLessIrreflexive(AnonymousName);
      CountAheadNone(rows, rows[10]);
    }
    var r := GetScoreboard(rows, 1, 10);
    forall k | 0 <= k < |r.entries|
      ensures r.entries[k].userId != 10
    {
      assert r.entries[k] == EntryOf(rows, rows[k]);
    }
  }

  /** The scoreboard test's three users: scores 200, 150 and 100 rank 1, 2
      and 3, and two users tied on score and name share rank 1 while the
      next rank is 3. */
  lemma RankExamples()
    ensures var bob := UserScore(2, "Bob", 200, 0, 0);
      var charlie := UserScore(3, "Charlie", 150, 0, 0);
      var alice := UserScore(1, "Alice", 100, 0, 0);
      var rows := [alice, bob, charlie];
      Rank(rows, bob) == 1 && Rank(rows, charlie) == 2 && Rank(rows, alice) == 3
    ensures var a1 := UserScore(1, "Alice", 100, 0, 0);
      var a2 := UserScore(2, "Alice", 100, 0, 0);
      var c := UserScore(3, "Charlie", 50, 0, 0);
      var rows := [a1, a2, c];
      Rank(rows, a1) == 1 && Rank(rows, a2) == 1 && Rank(rows, c) == 3
  {
    NameLessIrreflexive("Alice");
  }
}
