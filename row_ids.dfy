/** Row identifiers: reading the existing `Row<n>` values (get_next_row_id,
    main.py:59-63) and the identifier each school/year key receives while the raw
    rows are scanned (main.py:121, 135-143). */
module RowIds {
  import opened Options
  import opened Strings
  import opened Tables

  /** `s.replace('Row', '')`: every occurrence, found left to right without
      overlap, removed; the result is not rescanned. */
  function RemoveRow(s: string): (r: string)
    ensures |r| <= |s|
    decreases |s|
  {
    if |s| < 3 then s
    else if s[..3] == "Row" then RemoveRow(s[3..])
    else [s[0]] + RemoveRow(s[1..])
  }

  lemma {:induction false} RemoveRowWithoutR(s: string)
    requires 'R' !in s
    ensures RemoveRow(s) == s
    decreases |s|
  {
    if |s| >= 3 {
      assert s[0] != 'R' && s[..3] != "Row";
      RemoveRowWithoutR(s[1..]);
      assert [s[0]] + s[1..] == s;
    }
  }

  /** f"Row{n}" */
  function RowIdText(n: int): string
  {
    "Row" + IntToString(n)
  }

  /** `int(row_id.replace('Row', ''))`, None where that raises ValueError. */
  function ParseRowId(s: string): Option<int>
  {
    ParseInt(RemoveRow(s))
  }

  /** An identifier written by the script reads back as its number. */
  lemma {:induction false} RowIdRoundTrip(n: int)
    ensures ParseRowId(RowIdText(n)) == Some(n)
  {
    var d := IntToString(n);
    var s := RowIdText(n);
    assert s[..3] == "Row" && s[3..] == d;
    IntToStringChars(n);
    assert 'R' !in d by {
      forall i | 0 <= i < |d| ensures d[i] != 'R' { }
    }
    RemoveRowWithoutR(d);
    IntToStringRoundTrip(n);
  }

  lemma {:induction false} RowIdTextInjective(a: int, b: int)
    ensures RowIdText(a) == RowIdText(b) <==> a == b
  {
    RowIdRoundTrip(a);
    RowIdRoundTrip(b);
  }

  /** The number in one existing row's `RowIDs` cell, or the exception reading it raises. */
  function RowIdNum(r: Row): Result<int>
  {
    if "RowIDs" !in r then Failure(MissingRowId)
    else match ParseRowId(r["RowIDs"])
      case Some(n) => Success(n)
      case None => Failure(BadRowId(r["RowIDs"]))
  }

  /** A row with no identifier is the AttributeError of a NaN cell; a row holding an
      identifier the script wrote reads as that identifier's number. */
  lemma {:induction false} RowIdNumCases(r: Row, n: int)
    ensures "RowIDs" !in r ==> RowIdNum(r) == Failure(MissingRowId)
    ensures "RowIDs" in r && r["RowIDs"] == RowIdText(n) ==> RowIdNum(r) == Success(n)
  {
    RowIdRoundTrip(n);
  }

  /** The first row whose `RowIDs` cannot be read. unique() keeps first appearances in
      order, so the value the comprehension fails on is the one in this row. */
  function FirstBadRowId(rows: seq<Row>): (k: Option<nat>)
    ensures k.None? <==> forall j :: 0 <= j < |rows| ==> RowIdNum(rows[j]).Success?
    ensures k.Some? ==> k.value < |rows| && RowIdNum(rows[k.value]).Failure? &&
                        forall j :: 0 <= j < k.value ==> RowIdNum(rows[j]).Success?
  {
    if rows == [] then None
    else if RowIdNum(rows[0]).Failure? then Some(0)
    else match FirstBadRowId(rows[1..])
      case Some(k) => Some(k + 1)
      case None => None
  }

  /** max() over the row numbers. */
  function MaxRowNum(rows: seq<Row>): (m: int)
    requires |rows| > 0 && forall j :: 0 <= j < |rows| ==> RowIdNum(rows[j]).Success?
    ensures forall j :: 0 <= j < |rows| ==> RowIdNum(rows[j]).value <= m
    ensures exists j :: 0 <= j < |rows| && RowIdNum(rows[j]).value == m
  {
    if |rows| == 1 then RowIdNum(rows[0]).value
    else
      var rest := MaxRowNum(rows[1..]);
      var first := RowIdNum(rows[0]).value;
      assert forall j :: 1 <= j < |rows| ==> rows[j] == rows[1..][j - 1];
      if first >= rest then first else rest
  }

  /** get_next_row_id: one more than the largest existing row number. */
  function NextRowId(agg: Table): Result<int>
  {
    if "RowIDs" !in agg.columns then Failure(MissingColumn("RowIDs"))
    else match FirstBadRowId(agg.rows)
      case Some(k) => Failure(RowIdNum(agg.rows[k]).error)
      case None =>
        if agg.rows == [] then Failure(EmptyAggregate) else Success(MaxRowNum(agg.rows) + 1)
  }

  /** The next number is one above the largest existing one, and it exists exactly when
      the `RowIDs` label is there, the table has rows and every identifier reads as a
      number; otherwise the KeyError, the ValueError of the first bad identifier, or the
      ValueError max() raises on no rows. */
  lemma {:induction false} NextRowIdSpec(agg: Table)
    ensures NextRowId(agg).Success? <==>
              "RowIDs" in agg.columns && |agg.rows| > 0 &&
              forall j :: 0 <= j < |agg.rows| ==> RowIdNum(agg.rows[j]).Success?
    ensures NextRowId(agg).Success? ==>
              (forall j :: 0 <= j < |agg.rows| ==> RowIdNum(agg.rows[j]).value < NextRowId(agg).value) &&
              exists j :: 0 <= j < |agg.rows| && RowIdNum(agg.rows[j]).value == NextRowId(agg).value - 1
    ensures "RowIDs" !in agg.columns ==> NextRowId(agg) == Failure(MissingColumn("RowIDs"))
    ensures "RowIDs" in agg.columns && agg.rows == [] ==> NextRowId(agg) == Failure(EmptyAggregate)
    ensures "RowIDs" in agg.columns && FirstBadRowId(agg.rows).Some? ==>
              NextRowId(agg) == Failure(RowIdNum(agg.rows[FirstBadRowId(agg.rows).value]).error)
  {
  }

  /** f"{school_name}_{year}" */
  function ComboKey(name: string, year: string): string
  {
    name + "_" + year
  }

  /** With the year fixed for the run, two schools share a key only when their names are equal. */
  lemma {:induction false} ComboKeyInjective(a: string, b: string, year: string)
    ensures ComboKey(a, year) == ComboKey(b, year) <==> a == b
  {
    if ComboKey(a, year) == ComboKey(b, year) {
      assert |a| == |b|;
      assert a == ComboKey(a, year)[..|a|];
    }
  }

  /** The distinct keys of a sequence. */
  function KeySet(s: seq<string>): set<string>
    decreases |s|
  {
    if s == [] then {} else KeySet(s[..|s| - 1]) + {s[|s| - 1]}
  }

  lemma {:induction false} KeySetMembers(s: seq<string>)
    ensures forall x :: x in KeySet(s) <==> x in s
    decreases |s|
  {
    if s != [] {
      var front := s[..|s| - 1];
      KeySetMembers(front);
      assert s == front + [s[|s| - 1]];
    }
  }

  /** The position where a key is first met. */
  function FirstIndex(s: seq<string>, x: string): (k: nat)
    requires x in s
    ensures k < |s| && s[k] == x && x !in s[..k]
  {
    if s[0] == x then 0 else 1 + FirstIndex(s[1..], x)
  }

  /** The row number the i-th raw row receives: the number of distinct keys met
      before its key's first occurrence, counted up from `start`. */
  function IdNum(keys: seq<string>, start: int, i: nat): int
    requires i < |keys|
  {
    KeyNum(keys, start, keys[i])
  }

  /** The row number a key receives: the distinct keys met before its first occurrence,
      counted up from `start`. */
  function KeyNum(keys: seq<string>, start: int, key: string): int
    requires key in keys
  {
    start + |KeySet(keys[..FirstIndex(keys, key)])|
  }

  /** Extending a prefix by one position adds that position's key. */
  lemma {:induction false} KeySetStep(keys: seq<string>, i: nat)
    requires i < |keys|
    ensures KeySet(keys[..i + 1]) == KeySet(keys[..i]) + {keys[i]}
  {
    assert keys[..i + 1][..i] == keys[..i];
  }

  lemma {:induction false} KeySetPrefix(s: seq<string>, i: nat, j: nat)
    requires i <= j <= |s|
    ensures KeySet(s[..i]) <= KeySet(s[..j])
  {
    KeySetMembers(s[..i]);
    KeySetMembers(s[..j]);
    assert forall x :: x in s[..i] ==> x in s[..j];
  }

  lemma {:induction false} SubsetCard(a: set<string>, b: set<string>)
    requires a <= b
    ensures |a| <= |b|
  {
    assert b == a + (b - a);
  }

  /** A key not met before position i is first met at i. */
  lemma {:induction false} FirstIndexOfNewKey(keys: seq<string>, i: nat)
    requires i < |keys| && keys[i] !in keys[..i]
    ensures FirstIndex(keys, keys[i]) == i
  {
    var k := FirstIndex(keys, keys[i]);
  }

  /** Two raw rows share a row number exactly when they share a school/year key. */
  lemma {:induction false} IdSharedIffSameKey(keys: seq<string>, start: int, i: nat, j: nat)
    requires i < |keys| && j < |keys|
    ensures IdNum(keys, start, i) == IdNum(keys, start, j) <==> keys[i] == keys[j]
  {
    var fi, fj := FirstIndex(keys, keys[i]), FirstIndex(keys, keys[j]);
    if keys[i] != keys[j] {
      assert fi != fj;
      if fi < fj {
        KeyBeforeMeansMoreKeys(keys, fi, fj);
      } else {
        KeyBeforeMeansMoreKeys(keys, fj, fi);
      }
    }
  }

  lemma {:induction false} KeyBeforeMeansMoreKeys(keys: seq<string>, a: nat, b: nat)
    requires a < b <= |keys| && keys[a] !in keys[..a]
    ensures |KeySet(keys[..a])| < |KeySet(keys[..b])|
  {
    KeySetStep(keys, a);
    KeySetMembers(keys[..a]);
    KeySetPrefix(keys, a + 1, b);
    SubsetCard(KeySet(keys[..a + 1]), KeySet(keys[..b]));
  }

  /** Every row number handed out lies at or above `start` and below `start` plus
      the number of distinct keys met so far. */
  lemma {:induction false} IdBounds(keys: seq<string>, start: int, i: nat)
    requires i < |keys|
    ensures start <= IdNum(keys, start, i) < start + |KeySet(keys[..i + 1])|
    ensures IdNum(keys, start, i) < start + |KeySet(keys)|
  {
    var f := FirstIndex(keys, keys[i]);
    assert keys[f] !in keys[..f];
    KeyBeforeMeansMoreKeys(keys, f, i + 1);
    KeySetPrefix(keys, i + 1, |keys|);
    assert keys[..|keys|] == keys;
    SubsetCard(KeySet(keys[..i + 1]), KeySet(keys));
  }

  /** Some raw row among the first n receives number m. */
  predicate HandedOut(keys: seq<string>, start: int, n: nat, m: int)
    requires n <= |keys|
  {
    exists i :: 0 <= i < n && IdNum(keys, start, i) == m
  }

  /** The numbers handed out to the first n raw rows are start, start + 1, ...,
      one per distinct key, with no gap. */
  lemma {:induction false} IdsConsecutive(keys: seq<string>, start: int, n: nat)
    requires n <= |keys|
    ensures forall m :: start <= m < start + |KeySet(keys[..n])| ==> HandedOut(keys, start, n, m)
  {
    if n > 0 {
      IdsConsecutive(keys, start, n - 1);
      var last := keys[n - 1];
      KeySetStep(keys, n - 1);
      var bound := start + |KeySet(keys[..n - 1])|;
      forall m | start <= m < start + |KeySet(keys[..n])|
        ensures HandedOut(keys, start, n, m)
      {
        if m < bound {
          assert HandedOut(keys, start, n - 1, m);
          var i :| 0 <= i < n - 1 && IdNum(keys, start, i) == m;
          assert 0 <= i < n && IdNum(keys, start, i) == m;
        } else {
          assert last !in KeySet(keys[..n - 1]);
          KeySetMembers(keys[..n - 1]);
          FirstIndexOfNewKey(keys, n - 1);
          assert IdNum(keys, start, n - 1) == m;
        }
      }
    }
  }

  /** A newly allocated identifier is none of the identifiers already in the table. */
  lemma {:induction false} NewIdFresh(agg: Table, keys: seq<string>, start: int, i: nat)
    requires NextRowId(agg) == Success(start) && i < |keys|
    ensures forall k :: 0 <= k < |agg.rows| ==>
              RowIdNum(agg.rows[k]).value < IdNum(keys, start, i) &&
              agg.rows[k]["RowIDs"] != RowIdText(IdNum(keys, start, i))
  {
    NextRowIdSpec(agg);
    IdBounds(keys, start, i);
    RowIdRoundTrip(IdNum(keys, start, i));
  }

  lemma {:induction false} AddKey(given: map<string, string>, key: string, v: string)
    requires key !in given
    ensures |given[key := v]| == |given| + 1
  {
  }

  lemma {:induction false} NewKeyNum(keys: seq<string>, start: int, i: nat)
    requires i < |keys| && keys[i] !in KeySet(keys[..i])
    ensures IdNum(keys, start, i) == KeyNum(keys, start, keys[i]) == start + |KeySet(keys[..i])|
  {
    KeySetMembers(keys[..i]);
    FirstIndexOfNewKey(keys, i);
  }

  /** new_row_assignments after the first n raw rows, built as the loop of main.py:135-143
      builds it: a key not met before is given the counter, which is always `start` plus
      the number of entries so far. */
  function Assigned(keys: seq<string>, start: int, n: nat): map<string, string>
    requires n <= |keys|
  {
    if n == 0 then map[]
    else
      var m := Assigned(keys, start, n - 1);
      if keys[n - 1] in m then m else m[keys[n - 1] := RowIdText(start + |m|)]
  }

  /** One more key: the dictionary gains it, numbered by its size, unless it is there. */
  lemma {:induction false} AssignedStep(keys: seq<string>, start: int, i: nat)
    requires i < |keys|
    ensures var m := Assigned(keys, start, i);
            Assigned(keys, start, i + 1) == if keys[i] in m then m else m[keys[i] := RowIdText(start + |m|)]
  {
  }

  /** The dictionary's keys are the keys met so far. */
  lemma {:induction false} AssignedMembers(keys: seq<string>, start: int, n: nat)
    requires n <= |keys|
    ensures forall x :: x in Assigned(keys, start, n) <==> x in keys[..n]
  {
    if n > 0 {
      var m := Assigned(keys, start, n - 1);
      AssignedMembers(keys, start, n - 1);
      assert keys[..n] == keys[..n - 1] + [keys[n - 1]];
    }
  }

  /** The dictionary holds one entry per distinct key met so far, so the counter
      (`start` plus its size) has moved on once per distinct key. */
  lemma {:induction false} AssignedSize(keys: seq<string>, start: int, n: nat)
    requires n <= |keys|
    ensures |Assigned(keys, start, n)| == |KeySet(keys[..n])|
  {
    if n > 0 {
      var i := n - 1;
      var m := Assigned(keys, start, i);
      AssignedSize(keys, start, i);
      AssignedMembers(keys, start, i);
      KeySetMembers(keys[..i]);
      KeySetStep(keys, i);
      if keys[i] !in m {
        AddKey(m, keys[i], RowIdText(start + |m|));
      }
    }
  }

  /** Two positions holding the same key receive the same number. */
  lemma {:induction false} SameKeySameId(keys: seq<string>, start: int, i: nat, j: nat)
    requires i < |keys| && j < |keys| && keys[i] == keys[j]
    ensures IdNum(keys, start, i) == IdNum(keys, start, j)
  {
  }

  /** After n raw rows the dictionary maps the key of each of them to the identifier
      IdNum gives that row. */
  lemma {:induction false} AssignedAt(keys: seq<string>, start: int, n: nat, j: nat)
    requires j < n <= |keys|
    ensures keys[j] in Assigned(keys, start, n)
    ensures Assigned(keys, start, n)[keys[j]] == RowIdText(IdNum(keys, start, j))
    decreases n
  {
    var i := n - 1;
    assert i + 1 == n;
    if j < i {
      AssignedAt(keys, start, i, j);
      AssignedKeeps(keys, start, i, keys[j]);
    } else if keys[i] in Assigned(keys, start, i) {
      assert j == i;
      EarlierOccurrence(keys, start, i);
      var j' :| 0 <= j' < i && keys[j'] == keys[i];
      AssignedAt(keys, start, i, j');
      AssignedRepeat(keys, start, i, j');
    } else {
      assert j == i;
      AssignedNewKey(keys, start, i);
    }
  }

  /** A key already in the dictionary at row i was met at an earlier row. */
  lemma {:induction false} EarlierOccurrence(keys: seq<string>, start: int, i: nat)
    requires i < |keys| && keys[i] in Assigned(keys, start, i)
    ensures exists j :: 0 <= j < i && keys[j] == keys[i]
  {
    AssignedMembers(keys, start, i);
    assert keys[i] in keys[..i];
    var j :| 0 <= j < i && keys[..i][j] == keys[i];
    assert keys[j] == keys[i];
  }

  /** A key met again at row i keeps the identifier its earlier row j received. */
  lemma {:induction false} AssignedRepeat(keys: seq<string>, start: int, i: nat, j: nat)
    requires j < i < |keys| && keys[j] == keys[i]
    requires keys[j] in Assigned(keys, start, i)
    requires Assigned(keys, start, i)[keys[j]] == RowIdText(IdNum(keys, start, j))
    ensures keys[i] in Assigned(keys, start, i + 1)
    ensures Assigned(keys, start, i + 1)[keys[i]] == RowIdText(IdNum(keys, start, i))
  {
    SameKeySameId(keys, start, i, j);
    AssignedKeeps(keys, start, i, keys[i]);
  }

  /** An entry, once made, is never changed. */
  lemma {:induction false} AssignedKeeps(keys: seq<string>, start: int, i: nat, key: string)
    requires i < |keys| && key in Assigned(keys, start, i)
    ensures key in Assigned(keys, start, i + 1)
    ensures Assigned(keys, start, i + 1)[key] == Assigned(keys, start, i)[key]
  {
  }

  /** A key met for the first time at raw row i receives IdNum's number for row i. */
  lemma {:induction false} AssignedNewKey(keys: seq<string>, start: int, i: nat)
    requires i < |keys| && keys[i] !in Assigned(keys, start, i)
    ensures keys[i] in Assigned(keys, start, i + 1)
    ensures Assigned(keys, start, i + 1)[keys[i]] == RowIdText(IdNum(keys, start, i))
  {
    var m := Assigned(keys, start, i);
    assert Assigned(keys, start, i + 1) == m[keys[i] := RowIdText(start + |m|)];
    AssignedMembers(keys, start, i);
    AssignedSize(keys, start, i);
    KeySetMembers(keys[..i]);
    NewKeyNum(keys, start, i);
  }

  /** The counter-and-dictionary loop gives raw row i exactly the identifier IdNum
      describes. */
  lemma {:induction false} AssignedFollowsIdNum(keys: seq<string>, start: int, i: nat)
    requires i < |keys|
    ensures keys[i] in Assigned(keys, start, i + 1)
    ensures Assigned(keys, start, i + 1)[keys[i]] == RowIdText(IdNum(keys, start, i))
  {
    AssignedAt(keys, start, i + 1, i);
  }
}
