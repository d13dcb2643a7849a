/**
 The pure parts of `prepare_data` in cf_experiments_loop/transformations/movielens.py:
 the column names, the two reformatting calls with the `::` separator of the
 MovieLens `.dat` files, and the number of distinct users and items in the
 loaded ratings.
 */
module MovielensPrepare {
  import opened Text
  import opened Lines
  import opened MovielensTransform

  const UserColumn: string := "user_id"
  const ItemColumn: string := "item_id"
  const RatingColumn: string := "rating"
  const TimestampColumn: string := "timestamp"
  const TitleColumn: string := "titles"
  const GenreColumn: string := "genres"

  const RatingColumns: seq<string> := [UserColumn, ItemColumn, RatingColumn, TimestampColumn]
  const MovieColumns: seq<string> := [ItemColumn, TitleColumn, GenreColumn]

  /** The separator of the MovieLens `.dat` files. */
  const DatSeparator: string := "::"

  /**
   `ratings.csv` from the content of `ratings.dat`: nothing skipped, `::` as
   separator. With a non-empty separator the reformatting cannot fail, the
   file starts with the rating header, and it has one newline more than the
   input: the header's own, while every input newline is kept.
   */
  function RatingsCsv(ratingsDat: string): (csv: string)
    ensures "user_id,item_id,rating,timestamp\n" <= csv
    ensures multiset(csv)['\n'] == multiset(ratingsDat)['\n'] + 1
  {
    var r := TransformFile(RatingColumns, ratingsDat, false, DatSeparator);
    RowsKept(RatingColumns, ratingsDat);
    assert Header(RatingColumns) == "user_id,item_id,rating,timestamp\n" by {
      RatingHeader();
    }
    r.value
  }

  /**
   `movies.csv` from the content of `movies.dat`, in the same way, under the
   movie header.
   */
  function MoviesCsv(moviesDat: string): (csv: string)
    ensures "item_id,titles,genres\n" <= csv
    ensures multiset(csv)['\n'] == multiset(moviesDat)['\n'] + 1
  {
    var r := TransformFile(MovieColumns, moviesDat, false, DatSeparator);
    RowsKept(MovieColumns, moviesDat);
    assert Header(MovieColumns) == "item_id,titles,genres\n" by {
      MovieHeader();
    }
    r.value
  }

  /** The header of the ratings file, spelled out. */
  lemma RatingHeader()
    ensures Join(RatingColumns, ",") == "user_id,item_id,rating,timestamp"
    ensures Header(RatingColumns) == "user_id,item_id,rating,timestamp\n"
  {
    JoinFour(RatingColumns, ",");
  }

  /** The header of the movies file, spelled out. */
  lemma MovieHeader()
    ensures Join(MovieColumns, ",") == "item_id,titles,genres"
    ensures Header(MovieColumns) == "item_id,titles,genres\n"
  {
    JoinThree(MovieColumns, ",");
  }

  /** Each fixed header holds exactly one newline, its terminator. */
  lemma HeaderNewlines(names: seq<string>)
    requires names == RatingColumns || names == MovieColumns
    ensures multiset(Header(names))['\n'] == 1
  {
    forall i | 0 <= i < |names| ensures '\n' !in names[i] {
    }
    JoinFree(names, ",", '\n');
    var joined := Join(names, ",");
    assert '\n' !in multiset(joined);
    assert multiset(joined + "\n") == multiset(joined) + multiset("\n");
  }

  /** Reformatting a `.dat` file keeps every newline of the input and adds the header's. */
  lemma RowsKept(names: seq<string>, dat: string)
    requires names == RatingColumns || names == MovieColumns
    ensures TransformFile(names, dat, false, DatSeparator).Success?
    ensures multiset(TransformFile(names, dat, false, DatSeparator).value)['\n'] == multiset(dat)['\n'] + 1
  {
    TransformCsvKeepsChars(names, ReadLines(dat), false, DatSeparator, '\n');
    DropCrCount(dat, '\n');
    HeaderNewlines(names);
  }

  /** A row whose fields hold no colon is split back into exactly those fields, which are then quoted and joined. */
  lemma ColonFreeRow(parts: seq<string>)
    requires |parts| >= 1
    requires forall i :: 0 <= i < |parts| ==> ':' !in parts[i]
    ensures TransformLine(Join(parts, DatSeparator), DatSeparator) == Join(QuoteFields(parts), ",")
  {
    SplitColonFree(parts);
  }

  /** A row that splits back into its fields is written as those fields, quoted, joined with commas. */
  lemma SplitRow(parts: seq<string>)
    requires |parts| >= 1
    requires Split(Join(parts, DatSeparator), DatSeparator) == parts
    ensures TransformLine(Join(parts, DatSeparator), DatSeparator) == Join(QuoteFields(parts), ",")
  {
  }

  /**
   A `ratings.dat` row: user, item, rating and timestamp (the last one with the
   line terminator) free of colons and commas come out separated by commas
   instead of `::`, and nothing else changes.
   */
  lemma RatingRow(user: string, item: string, rating: string, timestamp: string)
    requires ':' !in user && ':' !in item && ':' !in rating && ':' !in timestamp
    requires ',' !in user && ',' !in item && ',' !in rating && ',' !in timestamp
    ensures TransformLine(user + "::" + item + "::" + rating + "::" + timestamp, DatSeparator)
      == user + "," + item + "," + rating + "," + timestamp
  {
    var parts := [user, item, rating, timestamp];
    ColonFreeRow(parts);
    JoinFour(parts, DatSeparator);
    assert QuoteFields(parts) == parts;
    JoinFour(parts, ",");
  }

  /**
   A `movies.dat` row whose title holds a comma, as many MovieLens titles do
   (`Net, The (1995)`, `Godfather: Part II, The (1974)`): the title is written
   between double quotes, the item id and the genres are left as they are. The
   title may hold single colons; it only must not hold `::` or end with a colon.
   */
  lemma MovieRowQuotesTitle(item: string, title: string, genres: string)
    requires ':' !in item && EndedBySeparator(title) && !Contains(genres, DatSeparator)
    requires ',' !in item && ',' in title && ',' !in genres
    ensures TransformLine(item + "::" + title + "::" + genres, DatSeparator)
      == item + ",\"" + title + "\"," + genres
  {
    var parts := [item, title, genres];
    JoinThree(parts, DatSeparator);
    MovieRowSplits(item, title, genres);
    SplitRow(parts);
    var q := "\"" + title + "\"";
    QuoteTitle(item, title, genres);
    JoinThree([item, q, genres], ",");
    QuotedMiddle(item, title, genres);
  }

  /** The quoted title between two commas, regrouped. */
  lemma QuotedMiddle(a: string, t: string, b: string)
    ensures a + "," + ("\"" + t + "\"") + "," + b == a + ",\"" + t + "\"," + b
  {
  }

  /** Such a movie row splits on `::` into exactly its three fields. */
  lemma MovieRowSplits(item: string, title: string, genres: string)
    requires ':' !in item && EndedBySeparator(title) && !Contains(genres, DatSeparator)
    ensures Split(Join([item, title, genres], DatSeparator), DatSeparator) == [item, title, genres]
  {
    var parts := [item, title, genres];
    ColonFreeEndsAtSeparator(item);
    SeparatorEndsField(title);
    assert forall i :: 0 <= i < |parts| - 1 ==> EndsAtFirstSeparator(parts[i], DatSeparator);
    SplitJoin(parts, DatSeparator);
  }

  /**
   A field that the `::` after it ends: it holds no `::`, and no trailing colon
   pairs up with the first colon of the separator.
   */
  ghost predicate EndedBySeparator(f: string) {
    !Contains(f, DatSeparator) && (f == [] || f[|f| - 1] != ':')
  }

  /** A MovieLens title with a colon and a comma, `Godfather: Part II, The (1974)`, is such a field. */
  lemma GodfatherTitleEnded()
    ensures EndedBySeparator("Godfather: Part II, The (1974)")
    ensures ',' in "Godfather: Part II, The (1974)"
  {
    var t := "Godfather: Part II, The (1974)";
    forall j ensures !OccursAt(t, DatSeparator, j) {
      if 0 <= j && j + 2 <= |t| && t[j] == ':' {
        assert j == 9;
        assert t[j..j + 2][1] == t[10];
      }
    }
    assert t[18] == ',';
  }

  /** Such a field ends at the leftmost `::` of the field followed by `::`. */
  lemma SeparatorEndsField(f: string)
    requires EndedBySeparator(f)
    ensures EndsAtFirstSeparator(f, DatSeparator)
  {
    var t := f + DatSeparator;
    forall j | 0 <= j < |f| ensures !OccursAt(t, DatSeparator, j) {
      if j + 1 < |f| {
        assert !OccursAt(f, DatSeparator, j);
        assert t[j..j + 2] == f[j..j + 2];
      } else {
        assert t[j] == f[|f| - 1];
        OccursAtHead(t, DatSeparator, j);
      }
    }
    assert t[|f|..|f| + 2] == DatSeparator;
    FindLeftmost(t, DatSeparator, |f|);
  }

  /** Of an item id, a title with a comma and genres, only the title gets quoted. */
  lemma QuoteTitle(item: string, title: string, genres: string)
    requires ',' !in item && ',' in title && ',' !in genres
    ensures QuoteFields([item, title, genres]) == [item, "\"" + title + "\"", genres]
  {
    var quoted := QuoteFields([item, title, genres]);
    assert quoted[0] == item;
    assert quoted[1] == "\"" + title + "\"";
    assert quoted[2] == genres;
  }

  /** `Join` of four parts, spelled out. */
  lemma JoinFour(parts: seq<string>, sep: string)
    requires |parts| == 4
    ensures Join(parts, sep) == parts[0] + sep + parts[1] + sep + parts[2] + sep + parts[3]
  {
    JoinCons(parts[0], parts[1..], sep);
    JoinCons(parts[1], parts[2..], sep);
    JoinCons(parts[2], parts[3..], sep);
    assert parts[1..][1..] == parts[2..];
    assert parts[2..][1..] == parts[3..];
  }

  /** `Join` of three parts, spelled out. */
  lemma JoinThree(parts: seq<string>, sep: string)
    requires |parts| == 3
    ensures Join(parts, sep) == parts[0] + sep + parts[1] + sep + parts[2]
  {
    JoinCons(parts[0], parts[1..], sep);
    JoinCons(parts[1], parts[2..], sep);
    assert parts[1..][1..] == parts[2..];
  }

  /** Fields free of colons are recovered by splitting their `::`-join. */
  lemma SplitColonFree(parts: seq<string>)
    requires |parts| >= 1
    requires forall i :: 0 <= i < |parts| ==> ':' !in parts[i]
    ensures Split(Join(parts, DatSeparator), DatSeparator) == parts
  {
    forall i | 0 <= i < |parts| ensures !Contains(parts[i], DatSeparator) {
      ColonFree(parts[i]);
    }
    forall i | 0 <= i < |parts| - 1 ensures EndsAtFirstSeparator(parts[i], DatSeparator) {
      ColonFreeEndsAtSeparator(parts[i]);
    }
    SplitJoin(parts, DatSeparator);
  }

  /** A colon-free string holds no `::`. */
  lemma ColonFree(f: string)
    requires ':' !in f
    ensures !Contains(f, DatSeparator)
  {
    forall j ensures !OccursAt(f, DatSeparator, j) {
      if 0 <= j && j + 2 <= |f| {
        assert f[j..j + 2][0] == f[j];
      }
    }
  }

  /** A colon-free field is ended by the `::` that follows it. */
  lemma ColonFreeEndsAtSeparator(f: string)
    requires ':' !in f
    ensures EndsAtFirstSeparator(f, DatSeparator)
  {
    var t := f + DatSeparator;
    forall j | 0 <= j < |f| ensures !OccursAt(t, DatSeparator, j) {
      assert t[j] == f[j];
      if j + 2 <= |t| {
        assert t[j..j + 2][0] == t[j];
      }
    }
    assert t[|f|..|f| + 2] == DatSeparator;
    FindLeftmost(t, DatSeparator, |f|);
  }

  /** A row of `ratings.csv` as loaded into the data frame. */
  datatype Rating = Rating(userId: int, itemId: int, rating: real, timestamp: int)

  /** The distinct values of the `user_id` column. */
  function UserIds(dataset: seq<Rating>): set<int> {
    set r | r in dataset :: r.userId
  }

  /** The distinct values of the `item_id` column. */
  function ItemIds(dataset: seq<Rating>): set<int> {
    set r | r in dataset :: r.itemId
  }

  /** The elements of a column, as a set. */
  function Elems(column: seq<int>): set<int> {
    set x | x in column
  }

  /** A column holds no value twice. */
  predicate Distinct(column: seq<int>) {
    forall i, j :: 0 <= i < j < |column| ==> column[i] != column[j]
  }

  /**
   pandas' `unique()` on a column: every value of the column once, and
   nothing else.
   */
  method Unique(column: seq<int>) returns (values: seq<int>)
    ensures Distinct(values)
    ensures Elems(values) == Elems(column)
    ensures |values| == |Elems(column)|
  {
    var seen: set<int> := {};
    values := [];
    for i := 0 to |column|
      invariant seen == Elems(values) == Elems(column[..i])
      invariant |values| == |seen|
      invariant Distinct(values)
    {
      assert column[..i + 1] == column[..i] + [column[i]];
      if column[i] !in seen {
        seen := seen + {column[i]};
        values := values + [column[i]];
      }
    }
    assert column[..|column|] == column;
  }

  /** A column has at most as many distinct values as rows. */
  lemma {:induction false} ElemsBound(column: seq<int>)
    ensures |Elems(column)| <= |column|
    decreases |column|
  {
    if column != [] {
      var init := column[..|column| - 1];
      assert column == init + [column[|column| - 1]];
      assert Elems(column) == Elems(init) + {column[|column| - 1]};
      ElemsBound(init);
    }
  }

  /**
   The numbers of distinct users and items in the loaded ratings, as counted
   with `len(column.unique())` in `prepare_data`.
   Each is at most the number of rows, and at least one when there is a row.
   */
  method DistinctCounts(dataset: seq<Rating>) returns (usersNumber: nat, itemsNumber: nat)
    ensures usersNumber == |UserIds(dataset)|
    ensures itemsNumber == |ItemIds(dataset)|
    ensures usersNumber <= |dataset| && itemsNumber <= |dataset|
    ensures dataset != [] ==> usersNumber >= 1 && itemsNumber >= 1
  {
    var userColumn := seq(|dataset|, i requires 0 <= i < |dataset| => dataset[i].userId);
    var itemColumn := seq(|dataset|, i requires 0 <= i < |dataset| => dataset[i].itemId);
    assert Elems(userColumn) == UserIds(dataset) by {
      forall x | x in UserIds(dataset) ensures x in Elems(userColumn) {
        var r :| r in dataset && r.userId == x;
        var i :| 0 <= i < |dataset| && dataset[i] == r;
        assert userColumn[i] == x;
      }
    }
    assert Elems(itemColumn) == ItemIds(dataset) by {
      forall x | x in ItemIds(dataset) ensures x in Elems(itemColumn) {
        var r :| r in dataset && r.itemId == x;
        var i :| 0 <= i < |dataset| && dataset[i] == r;
        assert itemColumn[i] == x;
      }
    }
    var users := Unique(userColumn);
    var items := Unique(itemColumn);
    usersNumber := |users|;
    itemsNumber := |items|;
    ElemsBound(userColumn);
    ElemsBound(itemColumn);
    if dataset != [] {
      assert userColumn[0] in Elems(userColumn);
      assert itemColumn[0] in Elems(itemColumn);
    }
  }
}
