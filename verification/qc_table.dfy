/** The QC table of `qc.py`: one row per transcription segment, built from the
    transcribed folders, merged into the existing table and kept ordered by
    `(id, name)`. */
module QcTable {
  import opened Wrappers
  import opened Strings
  import opened Sequences
  import opened Transcripts

  /** One row of `qc.csv`. `label` is the reviewer's label, `""` while unlabelled. */
  datatype Row = Row(name: string, id: int, uid: string, labelText: string, text: string,
                     start: real, end: real, avgLogprob: real)

  /** The columns the merge de-duplicates on. */
  datatype RowKey = RowKey(name: string, id: int)

  function KeyOf(r: Row): RowKey {
    RowKey(r.name, r.id)
  }

  function KeysOf(rows: seq<Row>): set<RowKey> {
    set r | r in rows :: KeyOf(r)
  }

  predicate UniqueKeys(rows: seq<Row>) {
    forall i, j :: 0 <= i < j < |rows| ==> KeyOf(rows[i]) != KeyOf(rows[j])
  }

  // ---------------------------------------------------------------------------
  // Building rows: json2segments

  /** The name hashed into a row's uid: `folder_name + " " + str(id)`. */
  function UidName(folderName: string, id: int): string {
    folderName + " " + DecimalString(id)
  }

  /** Position of the last space in `s`, or `-1` when there is none. */
  function LastSpace(s: string): int
    decreases |s|
  {
    if |s| == 0 then -1 else if s[|s| - 1] == ' ' then |s| - 1 else LastSpace(s[..|s| - 1])
  }

  lemma {:induction false} LastSpaceBeforeDigits(n: string, d: string)
    requires forall k :: 0 <= k < |d| ==> d[k] != ' '
    ensures LastSpace(n + " " + d) == |n|
    decreases |d|
  {
    if |d| > 0 {
      var s := n + " " + d;
      assert s[..|s| - 1] == n + " " + d[..|d| - 1];
      LastSpaceBeforeDigits(n, d[..|d| - 1]);
    }
  }

  /** Different `(folder, id)` pairs never hash the same name, so uids differ
      unless the name-based UUID itself collides. */
  lemma UidNameInjective(n1: string, i1: int, n2: string, i2: int)
    requires UidName(n1, i1) == UidName(n2, i2)
    ensures n1 == n2 && i1 == i2
  {
    var d1, d2 := DecimalString(i1), DecimalString(i2);
    var s := UidName(n1, i1);
    LastSpaceBeforeDigits(n1, d1);
    LastSpaceBeforeDigits(n2, d2);
    assert |n1| == |n2|;
    assert n1 == s[..|n1|] == n2;
    assert d1 == s[|n1| + 1..] == d2;
    DecimalStringInjective(i1, i2);
  }

  function NewRow(folderName: string, seg: Segment, nameUuid: string -> string): Row {
    Row(folderName, seg.id, nameUuid(UidName(folderName, seg.id)), "", seg.text,
        seg.start, seg.end, seg.avgLogprob)
  }

  /** `json2segments` for a transcription with at least one segment: one fresh,
      unlabelled row per segment, in segment order. `nameUuid` stands for
      `uuid5(NAMESPACE_DNS, ·)`. */
  function Json2Segments(folderName: string, segs: seq<Segment>, nameUuid: string -> string): (rows: seq<Row>)
    ensures |rows| == |segs|
    ensures forall k :: 0 <= k < |rows| ==>
              && rows[k].name == folderName
              && rows[k].id == segs[k].id
              && rows[k].labelText == ""
              && rows[k].uid == nameUuid(UidName(folderName, segs[k].id))
              && rows[k].text == segs[k].text
              && rows[k].start == segs[k].start
              && rows[k].end == segs[k].end
              && rows[k].avgLogprob == segs[k].avgLogprob
  {
    seq(|segs|, k requires 0 <= k < |segs| => NewRow(folderName, segs[k], nameUuid))
  }

  /** `json2segments` as written: a `segments` list that is empty gives a table
      without an `id` column, so the uid step fails (`None`). */
  function Json2SegmentsAsWritten(folderName: string, segs: seq<Segment>, nameUuid: string -> string): (r: Option<seq<Row>>)
    ensures r.None? <==> |segs| == 0
    ensures r.Some? ==> r.value == Json2Segments(folderName, segs, nameUuid)
  {
    if |segs| == 0 then None else Some(Json2Segments(folderName, segs, nameUuid))
  }

  // ---------------------------------------------------------------------------
  // Which folders are ingested

  /** One entry of the transcribed directory; `segments` is `None` when the
      folder has no `result.json`. */
  datatype QcFolder = QcFolder(name: string, isDir: bool, segments: Option<seq<Segment>>)

  /** A folder is read unless its name is already in the table, it is not a
      directory, it is the `qc` directory, or it has no `result.json`. */
  predicate Ingested(qc0: seq<Row>, f: QcFolder) {
    && (forall k :: 0 <= k < |qc0| ==> qc0[k].name != f.name)
    && f.isDir
    && f.name != "qc"
    && f.segments.Some?
  }

  /** The number of segments of the ingested folders. */
  function IngestedSegmentCount(qc0: seq<Row>, folders: seq<QcFolder>): nat
    decreases |folders|
  {
    if |folders| == 0 then 0
    else (if Ingested(qc0, folders[0]) then |folders[0].segments.value| else 0)
         + IngestedSegmentCount(qc0, folders[1..])
  }

  /** `qc1`: the rows of every ingested folder, in listing order. */
  function NewSegments(qc0: seq<Row>, folders: seq<QcFolder>, nameUuid: string -> string): (rows: seq<Row>)
    ensures |rows| == IngestedSegmentCount(qc0, folders)
    ensures forall r :: r in rows ==> r.labelText == ""
    ensures forall r :: r in rows ==>
              exists k, j :: 0 <= k < |folders| && Ingested(qc0, folders[k]) && 0 <= j < |folders[k].segments.value|
                             && r == NewRow(folders[k].name, folders[k].segments.value[j], nameUuid)
    ensures forall k, j ::
              0 <= k < |folders| && Ingested(qc0, folders[k]) && 0 <= j < |folders[k].segments.value| ==>
              NewRow(folders[k].name, folders[k].segments.value[j], nameUuid) in rows
    decreases |folders|
  {
    if |folders| == 0 then []
    else
      var f := folders[0];
      var mine := if Ingested(qc0, f) then Json2Segments(f.name, f.segments.value, nameUuid) else [];
      var rest := NewSegments(qc0, folders[1..], nameUuid);
      assert forall k :: 1 <= k < |folders| ==> folders[k] == folders[1..][k - 1];
      assert Ingested(qc0, f) ==> forall j :: 0 <= j < |f.segments.value| ==>
               NewRow(f.name, f.segments.value[j], nameUuid) == mine[j];
      assert forall r :: r in mine ==> exists j :: 0 <= j < |f.segments.value| && r == NewRow(f.name, f.segments.value[j], nameUuid) by {
        forall r | r in mine ensures exists j :: 0 <= j < |f.segments.value| && r == NewRow(f.name, f.segments.value[j], nameUuid) {
          var j :| 0 <= j < |mine| && mine[j] == r;
        }
      }
      mine + rest
  }

  /** The rows of a listing split in two are the rows of the first part
      followed by those of the second: new rows come folder by folder in
      listing order. */
  lemma {:induction false} NewSegmentsAppend(qc0: seq<Row>, a: seq<QcFolder>, b: seq<QcFolder>, nameUuid: string -> string)
    ensures NewSegments(qc0, a + b, nameUuid) == NewSegments(qc0, a, nameUuid) + NewSegments(qc0, b, nameUuid)
    decreases |a|
  {
    if |a| > 0 {
      var f := a[0];
      assert (a + b)[0] == f;
      assert (a + b)[1..] == a[1..] + b;
      NewSegmentsUnfold(qc0, a + b, nameUuid);
      NewSegmentsUnfold(qc0, a, nameUuid);
      NewSegmentsAppend(qc0, a[1..], b, nameUuid);
    } else {
      assert a + b == b;
    }
  }

  /** The rows of a listing are those of its first folder followed by those of
      the rest. */
  lemma NewSegmentsUnfold(qc0: seq<Row>, folders: seq<QcFolder>, nameUuid: string -> string)
    requires |folders| > 0
    ensures NewSegments(qc0, folders, nameUuid)
         == (if Ingested(qc0, folders[0]) then Json2Segments(folders[0].name, folders[0].segments.value, nameUuid) else [])
            + NewSegments(qc0, folders[1..], nameUuid)
  {
  }

  /** A single folder gives its `json2segments` rows, in segment order, when
      it is ingested, and nothing otherwise. */
  lemma NewSegmentsOfOneFolder(qc0: seq<Row>, f: QcFolder, nameUuid: string -> string)
    ensures NewSegments(qc0, [f], nameUuid)
         == if Ingested(qc0, f) then Json2Segments(f.name, f.segments.value, nameUuid) else []
  {
    assert [f][0] == f && [f][1..] == [];
  }

  /** The new rows never share a folder name with the existing table. */
  lemma NewSegmentsAreNew(qc0: seq<Row>, folders: seq<QcFolder>, nameUuid: string -> string)
    ensures forall r, q :: r in NewSegments(qc0, folders, nameUuid) && q in qc0 ==> r.name != q.name
  {
  }

  /** The ingest step as written, which fails as a whole when an ingested
      folder's transcription has no segments. */
  function NewSegmentsAsWritten(qc0: seq<Row>, folders: seq<QcFolder>, nameUuid: string -> string): (r: Option<seq<Row>>)
    ensures r.None? <==> exists k :: 0 <= k < |folders| && Ingested(qc0, folders[k]) && |folders[k].segments.value| == 0
    ensures r.Some? ==> r.value == NewSegments(qc0, folders, nameUuid)
    decreases |folders|
  {
    if |folders| == 0 then Some([])
    else
      var f := folders[0];
      assert forall k :: 1 <= k < |folders| ==> folders[k] == folders[1..][k - 1];
      var mine := if Ingested(qc0, f) then Json2SegmentsAsWritten(f.name, f.segments.value, nameUuid) else Some([]);
      match mine
      case None => None
      case Some(rows) =>
        match NewSegmentsAsWritten(qc0, folders[1..], nameUuid)
        case None => None
        case Some(rest) => Some(rows + rest)
  }

  /** A single new folder whose transcription is empty stops the ingest as
      written, where the evidently intended behaviour adds no rows for it. */
  lemma EmptyTranscriptAbortsIngest(qc0: seq<Row>, f: QcFolder, nameUuid: string -> string)
    requires Ingested(qc0, f) && f.segments == Some([])
    ensures NewSegmentsAsWritten(qc0, [f], nameUuid).None?
    ensures NewSegments(qc0, [f], nameUuid) == []
  {
    assert [f][0] == f;
  }

  // ---------------------------------------------------------------------------
  // drop_duplicates(subset=["name", "id"], keep="first")

  /** The first row of `rows` with the given key. */
  function FirstWithKey(rows: seq<Row>, key: RowKey): (r: Option<Row>)
    ensures r.Some? ==> r.value in rows && KeyOf(r.value) == key
    ensures r.None? <==> key !in KeysOf(rows)
    decreases |rows|
  {
    if |rows| == 0 then None
    else
      assert KeysOf(rows) == {KeyOf(rows[0])} + KeysOf(rows[1..]) by {
        assert rows == [rows[0]] + rows[1..];
      }
      if KeyOf(rows[0]) == key then Some(rows[0])
      else FirstWithKey(rows[1..], key)
  }

  /** Position of the first row with the given key, or the number of rows
      when there is none. */
  function FirstIndexOfKey(rows: seq<Row>, key: RowKey): (n: nat)
    ensures n <= |rows|
    ensures n < |rows| ==> KeyOf(rows[n]) == key
    ensures forall k :: 0 <= k < n ==> KeyOf(rows[k]) != key
    decreases |rows|
  {
    if |rows| == 0 then 0
    else if KeyOf(rows[0]) == key then 0
    else
      assert forall k :: 1 <= k < |rows| ==> rows[k] == rows[1..][k - 1];
      1 + FirstIndexOfKey(rows[1..], key)
  }

  lemma KeysOfCons(x: Row, rows: seq<Row>)
    ensures KeysOf([x] + rows) == {KeyOf(x)} + KeysOf(rows)
  {
    assert forall y :: y in [x] + rows <==> y == x || y in rows;
  }

  /** Rows that are a permutation of each other have the same keys. */
  lemma PermutationKeepsKeys(a: seq<Row>, b: seq<Row>)
    requires multiset(a) == multiset(b)
    ensures KeysOf(a) == KeysOf(b)
  {
    forall k | k in KeysOf(a) ensures k in KeysOf(b) {
      var x :| x in a && KeyOf(x) == k;
      assert x in multiset(b);
    }
    forall k | k in KeysOf(b) ensures k in KeysOf(a) {
      var x :| x in b && KeyOf(x) == k;
      assert x in multiset(a);
    }
  }

  /** Keeps the first row of every key not yet in `seen`. */
  function DedupeFrom(rows: seq<Row>, seen: set<RowKey>): seq<Row>
    decreases |rows|
  {
    if |rows| == 0 then []
    else if KeyOf(rows[0]) in seen then DedupeFrom(rows[1..], seen)
    else [rows[0]] + DedupeFrom(rows[1..], seen + {KeyOf(rows[0])})
  }

  lemma {:induction false} DedupeSubsequence(rows: seq<Row>, seen: set<RowKey>)
    ensures IsSubsequence(DedupeFrom(rows, seen), rows)
    decreases |rows|
  {
    if |rows| > 0 {
      var x := rows[0];
      if KeyOf(x) in seen {
        DedupeSubsequence(rows[1..], seen);
        var r := DedupeFrom(rows[1..], seen);
        if |r| > 0 {
          DedupeKeys(rows[1..], seen);
          assert KeyOf(r[0]) in KeysOf(r);
        }
      } else {
        DedupeSubsequence(rows[1..], seen + {KeyOf(x)});
        assert ([x] + DedupeFrom(rows[1..], seen + {KeyOf(x)}))[1..] == DedupeFrom(rows[1..], seen + {KeyOf(x)});
      }
    }
  }

  lemma DedupeKeys(rows: seq<Row>, seen: set<RowKey>)
    ensures KeysOf(DedupeFrom(rows, seen)) == KeysOf(rows) - seen
    ensures UniqueKeys(DedupeFrom(rows, seen))
  {
    DedupeKeySet(rows, seen);
    DedupeUnique(rows, seen);
  }

  lemma {:induction false} DedupeKeySet(rows: seq<Row>, seen: set<RowKey>)
    ensures KeysOf(DedupeFrom(rows, seen)) == KeysOf(rows) - seen
    decreases |rows|
  {
    if |rows| > 0 {
      var x := rows[0];
      KeysOfCons(x, rows[1..]);
      assert rows == [x] + rows[1..];
      if KeyOf(x) in seen {
        DedupeKeySet(rows[1..], seen);
      } else {
        DedupeKeySet(rows[1..], seen + {KeyOf(x)});
        KeysOfCons(x, DedupeFrom(rows[1..], seen + {KeyOf(x)}));
      }
    }
  }

  lemma {:induction false} DedupeUnique(rows: seq<Row>, seen: set<RowKey>)
    ensures UniqueKeys(DedupeFrom(rows, seen))
    decreases |rows|
  {
    if |rows| > 0 {
      var x := rows[0];
      if KeyOf(x) in seen {
        DedupeUnique(rows[1..], seen);
      } else {
        var rest := DedupeFrom(rows[1..], seen + {KeyOf(x)});
        DedupeUnique(rows[1..], seen + {KeyOf(x)});
        DedupeKeySet(rows[1..], seen + {KeyOf(x)});
        ConsUniqueKeys(x, rest);
      }
    }
  }

  lemma {:induction false} DedupeKeepsFirst(rows: seq<Row>, seen: set<RowKey>)
    ensures forall x :: x in DedupeFrom(rows, seen) ==> FirstWithKey(rows, KeyOf(x)) == Some(x)
    decreases |rows|
  {
    if |rows| > 0 {
      var y := rows[0];
      if KeyOf(y) in seen {
        DedupeKeepsFirst(rows[1..], seen);
        DedupeKeys(rows[1..], seen);
        forall x | x in DedupeFrom(rows, seen) ensures FirstWithKey(rows, KeyOf(x)) == Some(x) {
          assert KeyOf(x) in KeysOf(DedupeFrom(rows[1..], seen));
        }
      } else {
        var seen' := seen + {KeyOf(y)};
        DedupeKeepsFirst(rows[1..], seen');
        DedupeKeys(rows[1..], seen');
        forall x | x in DedupeFrom(rows, seen) ensures FirstWithKey(rows, KeyOf(x)) == Some(x) {
          if x != y {
            assert x in DedupeFrom(rows[1..], seen');
            assert KeyOf(x) in KeysOf(DedupeFrom(rows[1..], seen'));
          }
        }
      }
    }
  }

  /** The kept rows come in the order their keys first occur. */
  lemma {:induction false} DedupeOrder(rows: seq<Row>, seen: set<RowKey>)
    ensures var r := DedupeFrom(rows, seen);
            forall i, j :: 0 <= i < j < |r| ==>
              FirstIndexOfKey(rows, KeyOf(r[i])) < FirstIndexOfKey(rows, KeyOf(r[j]))
    decreases |rows|
  {
    if |rows| > 0 {
      var y := rows[0];
      var seen' := if KeyOf(y) in seen then seen else seen + {KeyOf(y)};
      var rest := DedupeFrom(rows[1..], seen');
      DedupeOrder(rows[1..], seen');
      DedupeKeySet(rows[1..], seen');
      forall i | 0 <= i < |rest|
        ensures FirstIndexOfKey(rows, KeyOf(rest[i])) == 1 + FirstIndexOfKey(rows[1..], KeyOf(rest[i]))
      {
        assert KeyOf(rest[i]) in KeysOf(rest);
        FirstIndexOfKeyTail(rows, KeyOf(rest[i]));
      }
      if KeyOf(y) !in seen {
        var r := [y] + rest;
        forall i, j | 0 <= i < j < |r|
          ensures FirstIndexOfKey(rows, KeyOf(r[i])) < FirstIndexOfKey(rows, KeyOf(r[j]))
        {
          assert r[j] == rest[j - 1];
          if i > 0 { assert r[i] == rest[i - 1]; }
        }
      }
    }
  }

  /** Past a first row with another key, the search moves one row on. */
  lemma FirstIndexOfKeyTail(rows: seq<Row>, key: RowKey)
    requires |rows| > 0 && KeyOf(rows[0]) != key
    ensures FirstIndexOfKey(rows, key) == 1 + FirstIndexOfKey(rows[1..], key)
  {
  }

  /** `drop_duplicates(subset=["name", "id"], keep="first")`: one row per key,
      the first one met, in the original order. */
  function DropDuplicates(rows: seq<Row>): (r: seq<Row>)
    ensures IsSubsequence(r, rows)
    ensures UniqueKeys(r)
    ensures KeysOf(r) == KeysOf(rows)
    ensures forall x :: x in r ==> FirstWithKey(rows, KeyOf(x)) == Some(x)
    ensures forall i, j :: 0 <= i < j < |r| ==>
              FirstIndexOfKey(rows, KeyOf(r[i])) < FirstIndexOfKey(rows, KeyOf(r[j]))
  {
    DedupeSubsequence(rows, {});
    DedupeKeys(rows, {});
    DedupeKeepsFirst(rows, {});
    DedupeOrder(rows, {});
    DedupeFrom(rows, {})
  }

  /** On rows whose keys are already unique, de-duplication keeps everything. */
  lemma {:induction false} DedupeUniqueKeepsAll(rows: seq<Row>, seen: set<RowKey>)
    requires UniqueKeys(rows)
    requires KeysOf(rows) !! seen
    ensures DedupeFrom(rows, seen) == rows
    decreases |rows|
  {
    if |rows| > 0 {
      var x := rows[0];
      KeysOfCons(x, rows[1..]);
      assert rows == [x] + rows[1..];
      assert KeysOf(rows[1..]) !! (seen + {KeyOf(x)}) by {
        forall y | y in rows[1..] ensures KeyOf(y) != KeyOf(x) {
          var j :| 0 <= j < |rows[1..]| && rows[1..][j] == y;
          assert rows[j + 1] == y;
        }
      }
      DedupeUniqueKeepsAll(rows[1..], seen + {KeyOf(x)});
    }
  }

  // ---------------------------------------------------------------------------
  // sort_values(by=["id", "name"])

  /** Row order of the saved table: `id` ascending, then `name` ascending. */
  predicate KeyLess(a: Row, b: Row) {
    a.id < b.id || (a.id == b.id && StrLess(a.name, b.name))
  }

  lemma KeyLessTransitive(a: Row, b: Row, c: Row)
    requires KeyLess(a, b) && KeyLess(b, c)
    ensures KeyLess(a, c)
  {
    if a.id == b.id && b.id == c.id { StrLessTransitive(a.name, b.name, c.name); }
  }

  lemma KeyLessAsymmetric(a: Row, b: Row)
    requires KeyLess(a, b)
    ensures !KeyLess(b, a) && KeyOf(a) != KeyOf(b)
  {
    if a.id == b.id {
      StrLessAsymmetric(a.name, b.name);
      StrLessIrreflexive(a.name);
    }
  }

  /** Distinct keys are always ordered one way or the other. */
  lemma KeyLessTotal(a: Row, b: Row)
    ensures KeyOf(a) == KeyOf(b) || KeyLess(a, b) || KeyLess(b, a)
  {
    StrLessTotal(a.name, b.name);
  }

  /** `!KeyLess(b, a)`, read "a comes no later than b", is transitive. */
  lemma KeyLeTransitive(a: Row, b: Row, c: Row)
    requires !KeyLess(b, a) && !KeyLess(c, b)
    ensures !KeyLess(c, a)
  {
    KeyLessTotal(a, b);
    KeyLessTotal(b, c);
    if KeyLess(a, b) && KeyLess(b, c) {
      KeyLessTransitive(a, b, c);
      KeyLessAsymmetric(a, c);
    } else if KeyLess(a, b) {
      KeyLessAsymmetric(a, b);
    } else if KeyLess(b, c) {
      KeyLessAsymmetric(b, c);
    } else {
      StrLessIrreflexive(a.name);
    }
  }

  predicate SortedByIdName(rows: seq<Row>) {
    forall i, j :: 0 <= i < j < |rows| ==> !KeyLess(rows[j], rows[i])
  }

  predicate StrictlySortedByIdName(rows: seq<Row>) {
    forall i, j :: 0 <= i < j < |rows| ==> KeyLess(rows[i], rows[j])
  }

  /** Puts `x` in front of the first row of `rows` that it does not follow. */
  function Insert(x: Row, rows: seq<Row>): (r: seq<Row>)
    ensures multiset(r) == multiset(rows) + multiset{x}
    decreases |rows|
  {
    if |rows| == 0 then [x]
    else if KeyLess(rows[0], x) then
      assert rows == [rows[0]] + rows[1..];
      [rows[0]] + Insert(x, rows[1..])
    else [x] + rows
  }

  lemma {:induction false} InsertSorted(x: Row, rows: seq<Row>)
    requires SortedByIdName(rows)
    ensures SortedByIdName(Insert(x, rows))
    decreases |rows|
  {
    if |rows| > 0 {
      if KeyLess(rows[0], x) {
        var rest := Insert(x, rows[1..]);
        InsertSorted(x, rows[1..]);
        forall e | e in rest ensures !KeyLess(e, rows[0]) {
          assert e in multiset(rest);
          if e == x {
            KeyLessAsymmetric(rows[0], x);
          } else {
            assert e in multiset(rows[1..]);
            var j :| 0 <= j < |rows[1..]| && rows[1..][j] == e;
            assert rows[j + 1] == e;
          }
        }
        var r := [rows[0]] + rest;
        assert forall j :: 1 <= j < |r| ==> r[j] == rest[j - 1];
      } else {
        forall j | 0 <= j < |rows| ensures !KeyLess(rows[j], x) {
          if j > 0 { KeyLeTransitive(x, rows[0], rows[j]); }
        }
      }
    }
  }

  lemma ConsUniqueKeys(y: Row, rest: seq<Row>)
    ensures UniqueKeys([y] + rest) <==> UniqueKeys(rest) && KeyOf(y) !in KeysOf(rest)
  {
    var r := [y] + rest;
    assert forall j :: 1 <= j < |r| ==> r[j] == rest[j - 1];
    if UniqueKeys(r) {
      forall z | z in rest ensures KeyOf(z) != KeyOf(y) {
        var j :| 0 <= j < |rest| && rest[j] == z;
        assert r[0] == y && r[j + 1] == z;
      }
      forall i, j | 0 <= i < j < |rest| ensures KeyOf(rest[i]) != KeyOf(rest[j]) {
        assert rest[i] == r[i + 1] && rest[j] == r[j + 1];
      }
    }
    if UniqueKeys(rest) && KeyOf(y) !in KeysOf(rest) {
      forall i, j | 0 <= i < j < |r| ensures KeyOf(r[i]) != KeyOf(r[j]) {
        if i == 0 {
          assert KeyOf(r[j]) in KeysOf(rest);
        }
      }
    }
  }

  lemma {:induction false} InsertKeys(x: Row, rows: seq<Row>)
    requires UniqueKeys(rows) && KeyOf(x) !in KeysOf(rows)
    ensures UniqueKeys(Insert(x, rows))
    ensures KeysOf(Insert(x, rows)) == KeysOf(rows) + {KeyOf(x)}
    decreases |rows|
  {
    if |rows| > 0 {
      var y := rows[0];
      assert rows == [y] + rows[1..];
      KeysOfCons(y, rows[1..]);
      ConsUniqueKeys(y, rows[1..]);
      if KeyLess(y, x) {
        var rest := Insert(x, rows[1..]);
        assert Insert(x, rows) == [y] + rest;
        InsertKeys(x, rows[1..]);
        KeysOfCons(y, rest);
        ConsUniqueKeys(y, rest);
      } else {
        assert Insert(x, rows) == [x] + rows;
        KeysOfCons(x, rows);
        ConsUniqueKeys(x, rows);
      }
    }
  }

  /** The table order `sort_and_save_qc` writes. */
  function SortByIdName(rows: seq<Row>): (r: seq<Row>)
    ensures SortedByIdName(r)
    ensures multiset(r) == multiset(rows)
    decreases |rows|
  {
    if |rows| == 0 then []
    else
      var rest := SortByIdName(rows[1..]);
      assert rows == [rows[0]] + rows[1..];
      InsertSorted(rows[0], rest);
      Insert(rows[0], rest)
  }

  /** Sorting keeps the set of keys, and keeps them unique. */
  lemma {:induction false} SortKeepsKeys(rows: seq<Row>)
    requires UniqueKeys(rows)
    ensures UniqueKeys(SortByIdName(rows)) && KeysOf(SortByIdName(rows)) == KeysOf(rows)
    decreases |rows|
  {
    if |rows| > 0 {
      var rest := SortByIdName(rows[1..]);
      assert rows == [rows[0]] + rows[1..];
      ConsUniqueKeys(rows[0], rows[1..]);
      KeysOfCons(rows[0], rows[1..]);
      SortKeepsKeys(rows[1..]);
      InsertKeys(rows[0], rest);
    }
  }

  lemma UniqueSortedIsStrict(rows: seq<Row>)
    requires SortedByIdName(rows) && UniqueKeys(rows)
    ensures StrictlySortedByIdName(rows)
  {
    forall i, j | 0 <= i < j < |rows| ensures KeyLess(rows[i], rows[j]) {
      KeyLessTotal(rows[i], rows[j]);
    }
  }

  lemma SortedHeadsAgree(a: seq<Row>, b: seq<Row>)
    requires |a| > 0 && |b| > 0 && multiset(a) == multiset(b) && UniqueKeys(b)
    requires SortedByIdName(a) && SortedByIdName(b)
    ensures a[0] == b[0]
  {
    assert a[0] in multiset(b) && b[0] in multiset(a);
    var j :| 0 <= j < |b| && b[j] == a[0];
    var i :| 0 <= i < |a| && a[i] == b[0];
    if i > 0 { assert !KeyLess(a[i], a[0]); } else { StrLessIrreflexive(a[0].name); }
    if j > 0 { assert !KeyLess(b[j], b[0]); } else { StrLessIrreflexive(a[0].name); }
    KeyLessTotal(a[0], b[0]);
  }

  /** Any two orderings of the same rows by `(id, name)` with unique keys are
      equal: the saved order does not depend on the sorting algorithm. */
  lemma {:induction false} SortedPermutationUnique(a: seq<Row>, b: seq<Row>)
    requires multiset(a) == multiset(b) && UniqueKeys(a) && UniqueKeys(b)
    requires SortedByIdName(a) && SortedByIdName(b)
    ensures a == b
    decreases |a|
  {
    assert |a| == |multiset(a)| == |multiset(b)| == |b|;
    if |a| > 0 {
      SortedHeadsAgree(a, b);
      assert a == [a[0]] + a[1..] && b == [b[0]] + b[1..];
      ConsUniqueKeys(a[0], a[1..]);
      ConsUniqueKeys(b[0], b[1..]);
      SameHeadSameTails(a, b);
      SortedTail(a);
      SortedTail(b);
      SortedPermutationUnique(a[1..], b[1..]);
    }
  }

  lemma SameHeadSameTails(a: seq<Row>, b: seq<Row>)
    requires |a| > 0 && |b| > 0 && a[0] == b[0] && multiset(a) == multiset(b)
    ensures multiset(a[1..]) == multiset(b[1..])
  {
    assert a == [a[0]] + a[1..] && b == [b[0]] + b[1..];
    assert multiset(a) == multiset{a[0]} + multiset(a[1..]);
    assert multiset(b) == multiset{b[0]} + multiset(b[1..]);
    assert multiset(a[1..]) == multiset(a) - multiset{a[0]};
    assert multiset(b[1..]) == multiset(b) - multiset{b[0]};
  }

  lemma SortedTail(a: seq<Row>)
    requires |a| > 0 && SortedByIdName(a)
    ensures SortedByIdName(a[1..])
  {
    forall i, j | 0 <= i < j < |a[1..]| ensures !KeyLess(a[1..][j], a[1..][i]) {
      assert a[1..][j] == a[j + 1] && a[1..][i] == a[i + 1];
    }
  }


  // ---------------------------------------------------------------------------
  // Merging the new rows into the existing table

  /** `qc` after the ingest: unchanged when nothing new was found; otherwise the
      existing rows followed by the new ones, de-duplicated on `(name, id)`
      keeping the first, and sorted by `(id, name)`. */
  function Merge(qc0: seq<Row>, qc1: seq<Row>): (qc: seq<Row>)
    ensures |qc1| == 0 ==> qc == qc0
    ensures |qc1| > 0 ==> StrictlySortedByIdName(qc)
    ensures |qc1| > 0 ==> KeysOf(qc) == KeysOf(qc0) + KeysOf(qc1)
    ensures |qc1| > 0 ==> forall x :: x in qc ==> FirstWithKey(qc0 + qc1, KeyOf(x)) == Some(x)
  {
    if |qc1| == 0 then qc0
    else
      var d := DropDuplicates(qc0 + qc1);
      var qc := SortByIdName(d);
      assert KeysOf(qc0 + qc1) == KeysOf(qc0) + KeysOf(qc1) by {
        assert forall y :: y in qc0 + qc1 <==> y in qc0 || y in qc1;
      }
      assert forall x :: x in qc ==> x in d by {
        forall x | x in qc ensures x in d { assert x in multiset(qc); }
      }
      SortKeepsKeys(d);
      UniqueSortedIsStrict(qc);
      qc
  }

  lemma {:induction false} FirstWithKeyPrefers(a: seq<Row>, b: seq<Row>, key: RowKey)
    requires key in KeysOf(a)
    ensures FirstWithKey(a + b, key) == FirstWithKey(a, key)
    decreases |a|
  {
    assert a == [a[0]] + a[1..];
    KeysOfCons(a[0], a[1..]);
    assert (a + b)[0] == a[0] && (a + b)[1..] == a[1..] + b;
    if KeyOf(a[0]) != key {
      FirstWithKeyPrefers(a[1..], b, key);
    }
  }

  lemma {:induction false} FirstWithKeyIsOnly(rows: seq<Row>, p: nat)
    requires UniqueKeys(rows) && p < |rows|
    ensures FirstWithKey(rows, KeyOf(rows[p])) == Some(rows[p])
    decreases p
  {
    if p > 0 {
      assert KeyOf(rows[0]) != KeyOf(rows[p]);
      assert rows[1..][p - 1] == rows[p];
      FirstWithKeyIsOnly(rows[1..], p - 1);
    }
  }

  /** An existing row is never displaced by a new row with the same
      `(name, id)`: the merge keeps the table's own first row for each key. */
  lemma ExistingRowsWin(qc0: seq<Row>, qc1: seq<Row>)
    requires |qc1| > 0
    ensures forall x :: x in qc0 ==> FirstWithKey(qc0, KeyOf(x)).value in Merge(qc0, qc1)
    ensures UniqueKeys(qc0) ==> forall x :: x in qc0 ==> x in Merge(qc0, qc1)
  {
    var qc := Merge(qc0, qc1);
    forall x | x in qc0 ensures FirstWithKey(qc0, KeyOf(x)).value in qc {
      assert KeyOf(x) in KeysOf(qc0);
      assert KeyOf(x) in KeysOf(qc);
      var y :| y in qc && KeyOf(y) == KeyOf(x);
      FirstWithKeyPrefers(qc0, qc1, KeyOf(x));
    }
    if UniqueKeys(qc0) {
      forall x | x in qc0 ensures FirstWithKey(qc0, KeyOf(x)) == Some(x) {
        var p :| 0 <= p < |qc0| && qc0[p] == x;
        FirstWithKeyIsOnly(qc0, p);
      }
    }
  }

  /** When the table and the new rows each have unique keys, the merge drops
      nothing: new folders are never already in the table. */
  lemma MergeKeepsEverything(qc0: seq<Row>, folders: seq<QcFolder>, nameUuid: string -> string)
    requires UniqueKeys(qc0)
    requires UniqueKeys(NewSegments(qc0, folders, nameUuid))
    ensures multiset(Merge(qc0, NewSegments(qc0, folders, nameUuid)))
         == multiset(qc0) + multiset(NewSegments(qc0, folders, nameUuid))
  {
    var qc1 := NewSegments(qc0, folders, nameUuid);
    if |qc1| > 0 {
      NewSegmentsAreNew(qc0, folders, nameUuid);
      var all := qc0 + qc1;
      assert UniqueKeys(all) by {
        forall i, j | 0 <= i < j < |all| ensures KeyOf(all[i]) != KeyOf(all[j]) {
          if i < |qc0| && j >= |qc0| {
            assert all[i] in qc0 && all[j] in qc1;
          } else if j >= |qc0| {
            assert all[i] == qc1[i - |qc0|] && all[j] == qc1[j - |qc0|];
          }
        }
      }
      DedupeUniqueKeepsAll(all, {});
    }
  }
}
