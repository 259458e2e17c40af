/**
 * The `titles` table of the rating service: its row type, the column
 * constraints a commit enforces, and the read-only queries over the table's
 * contents (owner-scoped lookup, per-user listing, group-by average).
 *
 * The table's contents are a sequence of rows in storage order; the primary
 * key is unique (see `UniqueIds`). The state-changing operations live in
 * module TitleStore.
 */
module Titles {
  import opened Wrappers

  /** The columns of `titles`. */
  datatype Column = Id | TitleName | Rating | TitleType | TitleStatus | UserId | UserName

  /** A Python attribute value as far as the mapped columns care: None, an int or a str. */
  datatype Value = Null | IntVal(i: int) | StrVal(s: string)

  /** A committed row. `rating` is the only nullable column. */
  datatype Title = Title(
    id: int,
    titleName: string,
    rating: Option<int>,
    titleType: string,
    titleStatus: string,
    userId: int,
    userName: string)

  datatype Error =
    | NoTitle                  // "No title with this id"
    | NotNull(column: Column)  // a NOT NULL column was left as None at commit
    | WrongType(column: Column) // a column was given a value of the other type
    | DuplicateId              // the primary key is already taken

  /** The attributes of a pending (not yet committed) `Title` object. */
  type Row = map<Column, Value>

  /** An attribute that was never set reads as None. */
  function Attr(r: Row, c: Column): Value {
    if c in r then r[c] else Null
  }

  /** The attribute values of a committed row: every column holds a value
      its declaration allows. */
  function ToRow(t: Title): (r: Row)
    ensures forall c :: Fits(c, Attr(r, c))
    ensures Attr(r, Id) == IntVal(t.id) && Attr(r, UserId) == IntVal(t.userId)
  {
    map[
      Id := IntVal(t.id),
      TitleName := StrVal(t.titleName),
      Rating := if t.rating.Some? then IntVal(t.rating.value) else Null,
      TitleType := StrVal(t.titleType),
      TitleStatus := StrVal(t.titleStatus),
      UserId := IntVal(t.userId),
      UserName := StrVal(t.userName)]
  }

  /** The column declarations: `rating` is `Integer, nullable=True`; `id` and
      `user_id` are non-null integers; the other four are non-null strings. */
  predicate Fits(c: Column, v: Value) {
    match c
    case Rating => v.Null? || v.IntVal?
    case Id => v.IntVal?
    case UserId => v.IntVal?
    case _ => v.StrVal?
  }

  /** The declarations read by value: NULL fits only `rating`, an int only
      the three Integer columns, a str only the four String columns. */
  lemma ColumnDeclarations(c: Column, v: Value)
    ensures v.Null? ==> (Fits(c, v) <==> c == Rating)
    ensures v.IntVal? ==> (Fits(c, v) <==> c == Id || c == Rating || c == UserId)
    ensures v.StrVal? ==> (Fits(c, v) <==> c == TitleName || c == TitleType || c == TitleStatus || c == UserName)
  {
  }

  /** The error a commit raises for a value the column refuses. */
  function Violation(c: Column, v: Value): (e: Error)
    ensures (e.NotNull? || e.WrongType?) && e.column == c
    ensures e.NotNull? <==> v.Null?
  {
    if v.Null? then NotNull(c) else WrongType(c)
  }

  /** Commit-time check of a pending row: the first column (in declaration
      order) whose value its declaration refuses makes the flush fail. */
  function FromRow(r: Row): (res: Result<Title, Error>)
    ensures res.Ok? <==> forall c :: Fits(c, Attr(r, c))
    ensures res.Ok? ==> forall c :: Attr(ToRow(res.value), c) == Attr(r, c)
    ensures res.Err? ==> exists c :: !Fits(c, Attr(r, c)) && res.error == Violation(c, Attr(r, c))
  {
    if !Fits(Id, Attr(r, Id)) then Err(Violation(Id, Attr(r, Id)))
    else if !Fits(TitleName, Attr(r, TitleName)) then Err(Violation(TitleName, Attr(r, TitleName)))
    else if !Fits(Rating, Attr(r, Rating)) then Err(Violation(Rating, Attr(r, Rating)))
    else if !Fits(TitleType, Attr(r, TitleType)) then Err(Violation(TitleType, Attr(r, TitleType)))
    else if !Fits(TitleStatus, Attr(r, TitleStatus)) then Err(Violation(TitleStatus, Attr(r, TitleStatus)))
    else if !Fits(UserId, Attr(r, UserId)) then Err(Violation(UserId, Attr(r, UserId)))
    else if !Fits(UserName, Attr(r, UserName)) then Err(Violation(UserName, Attr(r, UserName)))
    else
      Ok(Title(
        Attr(r, Id).i,
        Attr(r, TitleName).s,
        if Attr(r, Rating).IntVal? then Some(Attr(r, Rating).i) else None,
        Attr(r, TitleType).s,
        Attr(r, TitleStatus).s,
        Attr(r, UserId).i,
        Attr(r, UserName).s))
  }

  /** Reading a committed row back gives the same row. */
  lemma RowRoundTrip(t: Title)
    ensures FromRow(ToRow(t)) == Ok(t)
  {
    var r := ToRow(t);
    forall c: Column ensures Fits(c, Attr(r, c)) {
    }
  }

  // ---------------------------------------------------------------------
  // Keyword arguments of `update(**kwargs)`

  /** The value the keyword arguments give column `c`, if any; a later
      occurrence wins, as the last `setattr` does. */
  function Lookup(kwargs: seq<(Column, Value)>, c: Column): (v: Option<Value>)
    ensures v.None? <==> forall i :: 0 <= i < |kwargs| ==> kwargs[i].0 != c
    ensures v.Some? ==> exists i :: 0 <= i < |kwargs| && kwargs[i] == (c, v.value)
  {
    if kwargs == [] then None
    else if kwargs[|kwargs| - 1].0 == c then Some(kwargs[|kwargs| - 1].1)
    else Lookup(kwargs[..|kwargs| - 1], c)
  }

  /** The attributes after `setattr(self, key, value)` for each argument in
      turn: exactly the supplied columns take the supplied values, and every
      other column keeps the value it had. */
  function Apply(r: Row, kwargs: seq<(Column, Value)>): (a: Row)
    ensures forall c :: Attr(a, c) == if Lookup(kwargs, c).Some? then Lookup(kwargs, c).value else Attr(r, c)
  {
    if kwargs == [] then r
    else Apply(r, kwargs[..|kwargs| - 1])[kwargs[|kwargs| - 1].0 := kwargs[|kwargs| - 1].1]
  }

  // ---------------------------------------------------------------------
  // Table-level predicates

  /** The primary key is unique. */
  predicate UniqueIds(rows: seq<Title>) {
    forall i, j :: 0 <= i < j < |rows| ==> rows[i].id != rows[j].id
  }

  predicate HasId(rows: seq<Title>, id: int) {
    exists k :: 0 <= k < |rows| && rows[k].id == id
  }

  // ---------------------------------------------------------------------
  // Queries

  /** `Title.get`: the first row whose id AND owner both match, else
      "No title with this id". */
  function Get(rows: seq<Title>, titleId: int, userId: int): (r: Result<Title, Error>)
    ensures r.Ok? <==> exists k :: 0 <= k < |rows| && rows[k].id == titleId && rows[k].userId == userId
    ensures r.Ok? ==> r.value in rows && r.value.id == titleId && r.value.userId == userId
    ensures r.Err? ==> r.error == NoTitle
  {
    if rows == [] then Err(NoTitle)
    else if rows[0].id == titleId && rows[0].userId == userId then Ok(rows[0])
    else Get(rows[1..], titleId, userId)
  }

  /** A title owned by someone else fails exactly like an id that does not exist. */
  lemma ForeignTitleLooksMissing(rows: seq<Title>, t: Title, other: int, missingId: int)
    requires UniqueIds(rows) && t in rows && t.userId != other
    requires !HasId(rows, missingId)
    ensures Get(rows, t.id, other) == Get(rows, missingId, other) == Err(NoTitle)
  {
  }

  /** With a unique key, a successful lookup returns the row with that id. */
  lemma GetFindsTheRow(rows: seq<Title>, t: Title)
    requires UniqueIds(rows) && t in rows
    ensures Get(rows, t.id, t.userId) == Ok(t)
  {
  }

  /** `Title.get_users_titles_list`: the rows whose `user_id` AND `user_name`
      both match, in table order. */
  function UsersTitles(rows: seq<Title>, userId: int, userName: string): (r: seq<Title>)
    ensures forall t :: t in r <==> t in rows && t.userId == userId && t.userName == userName
    ensures |r| <= |rows|
  {
    if rows == [] then []
    else
      var rest := UsersTitles(rows[1..], userId, userName);
      if rows[0].userId == userId && rows[0].userName == userName then [rows[0]] + rest else rest
  }

  /** The listing of one row is that row when it matches, and nothing otherwise. */
  lemma UsersTitlesOne(t: Title, userId: int, userName: string)
    ensures UsersTitles([t], userId, userName) == if t.userId == userId && t.userName == userName then [t] else []
  {
    assert [t][1..] == [];
  }

  /** The listing of a concatenation is the listings of the parts, in order;
      with `UsersTitlesOne` this fixes how often each row is listed: once per
      matching row of the table. */
  lemma {:induction false} UsersTitlesAppend(a: seq<Title>, b: seq<Title>, userId: int, userName: string)
    ensures UsersTitles(a + b, userId, userName) == UsersTitles(a, userId, userName) + UsersTitles(b, userId, userName)
  {
    if a == [] {
      assert a + b == b;
    } else {
      assert (a + b)[0] == a[0];
      assert (a + b)[1..] == a[1..] + b;
      UsersTitlesAppend(a[1..], b, userId, userName);
    }
  }

  /** The table with the row whose key is `id` replaced by `u`, in place:
      the other rows stay, each at its position, and `u` is present exactly
      when a row with that key was. Giving `u` its old key or an unused one
      keeps the key unique. */
  function Replace(rows: seq<Title>, id: int, u: Title): (r: seq<Title>)
    ensures |r| == |rows|
    ensures forall k :: 0 <= k < |r| ==> r[k] == if rows[k].id == id then u else rows[k]
    ensures forall x :: x in r <==> (x in rows && x.id != id) || (x == u && HasId(rows, id))
    ensures UniqueIds(rows) && (u.id == id || !HasId(rows, u.id)) ==> UniqueIds(r)
  {
    var r := seq(|rows|, k requires 0 <= k < |rows| => if rows[k].id == id then u else rows[k]);
    assert forall x :: x in rows && x.id != id ==> x in r by {
      forall x | x in rows && x.id != id ensures x in r {
        var k :| 0 <= k < |rows| && rows[k] == x;
        assert r[k] == x;
      }
    }
    assert HasId(rows, id) ==> u in r by {
      if HasId(rows, id) {
        var k :| 0 <= k < |rows| && rows[k].id == id;
        assert r[k] == u;
      }
    }
    r
  }

  /** Replacing a present row by one whose key is its own or unused makes
      the new row what `Get` finds. */
  lemma ReplaceKeepsKeyUnique(rows: seq<Title>, t: Title, u: Title)
    requires UniqueIds(rows) && t in rows
    requires u.id == t.id || !HasId(rows, u.id)
    ensures UniqueIds(Replace(rows, t.id, u))
    ensures Get(Replace(rows, t.id, u), u.id, u.userId) == Ok(u)
  {
    var r := Replace(rows, t.id, u);
    var k :| 0 <= k < |rows| && rows[k] == t;
    assert r[k] == u;
    GetFindsTheRow(r, u);
  }

  /** The rows other than the one with `id`: the table after deleting it. */
  function Without(rows: seq<Title>, id: int): (r: seq<Title>)
    ensures forall t :: t in r <==> t in rows && t.id != id
    ensures UniqueIds(rows) ==> UniqueIds(r)
    ensures UniqueIds(rows) ==> |r| == if HasId(rows, id) then |rows| - 1 else |rows|
  {
    if rows == [] then []
    else
      var rest := Without(rows[1..], id);
      SplitFirst(rows, id);
      if rows[0].id == id then rest
      else
        assert UniqueIds(rows) ==> UniqueIds([rows[0]] + rest) by {
          if UniqueIds(rows) {
            PrependUnique(rows[0], rest);
          }
        }
        [rows[0]] + rest
  }

  /** How a table's first row relates to the rest of it. */
  lemma SplitFirst(rows: seq<Title>, id: int)
    requires rows != []
    ensures HasId(rows, id) <==> rows[0].id == id || HasId(rows[1..], id)
    ensures UniqueIds(rows) ==> UniqueIds(rows[1..]) && !HasId(rows[1..], rows[0].id)
  {
    assert forall k :: 0 < k < |rows| ==> rows[1..][k - 1] == rows[k];
  }

  /** A row whose key is unused keeps the key unique when appended. */
  lemma AppendUnique(rows: seq<Title>, x: Title)
    requires UniqueIds(rows) && !HasId(rows, x.id)
    ensures UniqueIds(rows + [x])
  {
    var r := rows + [x];
    forall i, j | 0 <= i < j < |r| ensures r[i].id != r[j].id {
      assert r[i] == rows[i];
      if j < |rows| {
        assert r[j] == rows[j];
      }
    }
  }

  /** A row whose key no other row has keeps the key unique when put first. */
  lemma PrependUnique(x: Title, rest: seq<Title>)
    requires UniqueIds(rest) && forall t :: t in rest ==> t.id != x.id
    ensures UniqueIds([x] + rest)
  {
    var r := [x] + rest;
    forall i, j | 0 <= i < j < |r| ensures r[i].id != r[j].id {
      assert r[j] == rest[j - 1];
      if i > 0 {
        assert r[i] == rest[i - 1];
      }
    }
  }

  // ---------------------------------------------------------------------
  // Group-by average (`Title.get_title_list`)

  /** One output row of the aggregate query. */
  datatype Group = Group(titleName: string, titleType: string, avgRating: Option<real>)

  function NamesOf(rows: seq<Title>): set<string> {
    set t | t in rows :: t.titleName
  }

  /** The distinct title names, in order of first appearance. */
  function DistinctNames(rows: seq<Title>): (ns: seq<string>)
    ensures forall i, j :: 0 <= i < j < |ns| ==> ns[i] != ns[j]
    ensures forall n :: n in ns <==> n in NamesOf(rows)
  {
    if rows == [] then []
    else
      var init := rows[..|rows| - 1];
      var ns := DistinctNames(init);
      var n := rows[|rows| - 1].titleName;
      assert rows == init + [rows[|rows| - 1]];
      if n in ns then ns else ns + [n]
  }

  /** The non-null ratings of the rows named `name`, in table order. */
  function Ratings(rows: seq<Title>, name: string): (rs: seq<int>)
    ensures |rs| <= |rows|
    ensures forall x :: x in rs <==> exists t :: t in rows && t.titleName == name && t.rating == Some(x)
  {
    if rows == [] then []
    else
      var rest := Ratings(rows[1..], name);
      if rows[0].titleName == name && rows[0].rating.Some? then [rows[0].rating.value] + rest else rest
  }

  function Sum(xs: seq<int>): int {
    if xs == [] then 0 else xs[0] + Sum(xs[1..])
  }

  /** SQL `AVG` over the non-null values: NULL on an empty set. */
  function Mean(xs: seq<int>): (m: Option<real>)
    ensures m.None? <==> xs == []
    ensures m.Some? ==> m.value * (|xs| as real) == Sum(xs) as real
  {
    if xs == [] then None else Some(Sum(xs) as real / |xs| as real)
  }

  /** The first row named `name`: it supplies the group's `title_type`. */
  function FirstNamed(rows: seq<Title>, name: string): (t: Title)
    requires name in NamesOf(rows)
    ensures t in rows && t.titleName == name
  {
    if rows[0].titleName == name then rows[0]
    else
      assert name in NamesOf(rows[1..]) by {
        var t :| t in rows && t.titleName == name;
        assert t in rows[1..];
      }
      FirstNamed(rows[1..], name)
  }

  function GroupOf(rows: seq<Title>, name: string): Group
    requires name in NamesOf(rows)
  {
    Group(name, FirstNamed(rows, name).titleType, Mean(Ratings(rows, name)))
  }

  /** `Title.get_title_list`: one entry per distinct `title_name`, carrying
      the mean of that name's non-null ratings (None when it has none). */
  function TitleList(rows: seq<Title>): (r: seq<Group>)
    ensures forall i, j :: 0 <= i < j < |r| ==> r[i].titleName != r[j].titleName
    ensures forall n :: n in NamesOf(rows) <==> exists i :: 0 <= i < |r| && r[i].titleName == n
    ensures forall i :: 0 <= i < |r| ==> r[i].avgRating == Mean(Ratings(rows, r[i].titleName))
    ensures forall i :: 0 <= i < |r| ==>
      exists t :: t in rows && t.titleName == r[i].titleName && t.titleType == r[i].titleType
  {
    var ns := DistinctNames(rows);
    var r := seq(|ns|, i requires 0 <= i < |ns| => GroupOf(rows, ns[i]));
    assert forall i :: 0 <= i < |r| ==> r[i].titleName == ns[i];
    assert forall n :: n in NamesOf(rows) ==> exists i :: 0 <= i < |r| && r[i].titleName == n by {
      forall n | n in NamesOf(rows) ensures exists i :: 0 <= i < |r| && r[i].titleName == n {
        var i :| 0 <= i < |ns| && ns[i] == n;
        assert r[i].titleName == n;
      }
    }
    r
  }

  /** The non-null ratings of a concatenation are those of its parts. */
  lemma {:induction false} RatingsAppend(a: seq<Title>, b: seq<Title>, name: string)
    ensures Ratings(a + b, name) == Ratings(a, name) + Ratings(b, name)
  {
    if a == [] {
      assert a + b == b;
    } else {
      assert (a + b)[0] == a[0];
      assert (a + b)[1..] == a[1..] + b;
      RatingsAppend(a[1..], b, name);
    }
  }

  /** The ratings one row contributes: its own, when it is named `name` and
      rated. With `RatingsAppend` this fixes how often each rating is
      averaged: once per row that carries it. */
  lemma RatingsOne(t: Title, name: string)
    ensures Ratings([t], name) == if t.titleName == name && t.rating.Some? then [t.rating.value] else []
  {
    assert [t][1..] == [];
  }

  /** A row with a NULL rating does not move any group's average. */
  lemma NullRatingIgnored(rows: seq<Title>, t: Title, name: string)
    requires t.rating.None?
    ensures Mean(Ratings(rows + [t], name)) == Mean(Ratings(rows, name))
  {
    RatingsAppend(rows, [t], name);
    RatingsOne(t, name);
    assert Ratings(rows, name) + [] == Ratings(rows, name);
  }

  lemma {:induction false} SumBounds(xs: seq<int>, lo: int, hi: int)
    requires forall k :: 0 <= k < |xs| ==> lo <= xs[k] <= hi
    ensures lo * |xs| <= Sum(xs) <= hi * |xs|
  {
    if xs != [] {
      SumBounds(xs[1..], lo, hi);
      assert lo * |xs| == lo + lo * |xs[1..]|;
      assert hi * |xs| == hi + hi * |xs[1..]|;
    }
  }

  /** Dividing both sides of an inequality by the same positive amount. */
  lemma CancelPositive(a: real, b: real, n: real)
    requires n > 0.0 && a * n <= b * n
    ensures a <= b
  {
  }

  /** An average lies between the smallest and the largest rating it is taken over. */
  lemma MeanWithinBounds(xs: seq<int>, lo: int, hi: int)
    requires xs != []
    requires forall k :: 0 <= k < |xs| ==> lo <= xs[k] <= hi
    ensures lo as real <= Mean(xs).value <= hi as real
  {
    var n := |xs| as real;
    var m := Mean(xs).value;
    var total := Sum(xs) as real;
    assert m * n == total;
    assert (lo as real) * n <= total && total <= (hi as real) * n by {
      SumBounds(xs, lo, hi);
      CastProduct(lo, |xs|);
      CastProduct(hi, |xs|);
    }
    CancelPositive(lo as real, m, n);
    CancelPositive(m, hi as real, n);
  }

  lemma CastProduct(a: int, b: int)
    ensures (a * b) as real == (a as real) * (b as real)
  {
  }

  /** A table whose rows all share one name yields one group. */
  lemma SingleNameList(rows: seq<Title>, name: string)
    requires DistinctNames(rows) == [name]
    ensures name in NamesOf(rows) && TitleList(rows) == [GroupOf(rows, name)]
  {
  }

  /** Three rows named "X", rated 4, 6 and NULL by three users. */
  const ExampleRows: seq<Title> := [
    Title(1, "X", Some(4), "movie", "completed", 1, "alice"),
    Title(2, "X", Some(6), "movie", "watching", 2, "bob"),
    Title(3, "X", None, "movie", "watching", 3, "carol")]

  lemma ExampleGroups()
    ensures DistinctNames(ExampleRows) == ["X"]
    ensures Ratings(ExampleRows, "X") == [4, 6]
  {
    var rows := ExampleRows;
    assert rows[..3] == rows && rows[..3][..2] == rows[..2] && rows[..2][..1] == rows[..1];
    assert DistinctNames(rows[..1]) == ["X"];
    assert DistinctNames(rows[..2]) == ["X"];
  }

  /** The worked example: ratings 4, 6 and NULL for "X" average to 5.0. */
  lemma AverageExample()
    ensures TitleList(ExampleRows) == [Group("X", "movie", Some(5.0))]
  {
    var rows := ExampleRows;
    ExampleGroups();
    SingleNameList(rows, "X");
    assert FirstNamed(rows, "X") == rows[0];
    assert Mean([4, 6]) == Some(5.0);
  }
}
