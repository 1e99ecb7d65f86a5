/**
 The in-memory sales table of the KAM tracker: a sequence of rows with the
 columns Data, Oddzial, Klient, Sprzedaz_LY, Sprzedaz_Current and Notatki,
 the "new customer" path that appends a row, and the "edit" path that picks a
 customer of a branch and rewrites the first matching row in place.
 */
module Sales {
  import opened Notes
  import opened Ordering

  datatype Option<T> = None | Some(value: T)

  /** The branch names offered by both forms (ODDZIALY). */
  const Branches: seq<string> :=
    ["Konin", "Gdańsk", "Olsztyn", "Białystok", "Warszawa", "Rzeszów",
     "Wrocław", "Opole", "Katowice", "Dąbrowa G."]

  /** One record. `stamp` is the Data column: the "%Y-%m-%d %H:%M" text of the
      moment of the last create or update, passed in by the caller.
      Amounts are exact reals in place of the floats of the table. */
  datatype Row = Row(stamp: string, branch: string, customer: string,
                     priorYear: real, current: real, note: Note)

  /** Every amount in the table is at least 0, as the number inputs enforce. */
  predicate NonNegative(rows: seq<Row>) {
    forall i :: 0 <= i < |rows| ==> rows[i].priorYear >= 0.0 && rows[i].current >= 0.0
  }

  /** The edit key: `(df['Oddzial'] == o) & (df['Klient'] == k)`. */
  predicate Matches(r: Row, o: string, k: string) {
    r.branch == o && r.customer == k
  }

  /** Some row of the table belongs to branch `o`. */
  predicate HasBranch(rows: seq<Row>, o: string) {
    exists i :: 0 <= i < |rows| && rows[i].branch == o
  }

  /** `df[df['Oddzial'] == o]`: the rows of branch `o`, in table order. */
  function RowsOf(rows: seq<Row>, o: string): (r: seq<Row>)
    ensures |r| <= |rows|
    ensures forall x :: x in r <==> x in rows && x.branch == o
  {
    if rows == [] then []
    else (if rows[0].branch == o then [rows[0]] else []) + RowsOf(rows[1..], o)
  }

  lemma {:induction false} RowsOfAppend(a: seq<Row>, b: seq<Row>, o: string)
    ensures RowsOf(a + b, o) == RowsOf(a, o) + RowsOf(b, o)
  {
    if a == [] {
      assert a + b == b;
    } else {
      assert (a + b)[0] == a[0] && (a + b)[1..] == a[1..] + b;
      RowsOfAppend(a[1..], b, o);
    }
  }

  /** The Klient column of some rows. */
  function Customers(rows: seq<Row>): (r: seq<string>)
    ensures |r| == |rows|
    ensures forall i :: 0 <= i < |rows| ==> r[i] == rows[i].customer
  {
    seq(|rows|, i requires 0 <= i < |rows| => rows[i].customer)
  }

  /** `df[df['Oddzial'] == o]['Klient'].unique()`: the customers the edit form
      offers for branch `o`. They are exactly the distinct customers of the
      rows of that branch. */
  function EditChoices(rows: seq<Row>, o: string): (r: seq<string>)
    ensures NoDuplicates(r)
    ensures forall k :: k in r <==> exists i :: 0 <= i < |rows| && Matches(rows[i], o, k)
  {
    var sub := RowsOf(rows, o);
    var r := Distinct(Customers(sub));
    assert forall k :: k in r ==> exists i :: 0 <= i < |rows| && Matches(rows[i], o, k) by {
      forall k | k in r ensures exists i :: 0 <= i < |rows| && Matches(rows[i], o, k) {
        var j :| 0 <= j < |sub| && Customers(sub)[j] == k;
        assert sub[j] in sub;
      }
    }
    assert forall k :: (exists i :: 0 <= i < |rows| && Matches(rows[i], o, k)) ==> k in r by {
      forall k | exists i :: 0 <= i < |rows| && Matches(rows[i], o, k) ensures k in r {
        var i :| 0 <= i < |rows| && Matches(rows[i], o, k);
        assert rows[i] in sub;
        var j :| 0 <= j < |sub| && sub[j] == rows[i];
        assert Customers(sub)[j] == k;
      }
    }
    r
  }

  /** `df[...].index[0]`: the lowest position of a row matching the key, or
      None when no row matches (where pandas would raise). */
  function FirstMatch(rows: seq<Row>, o: string, k: string): (r: Option<nat>)
    ensures r.Some? ==> r.value < |rows| && Matches(rows[r.value], o, k)
                        && forall j :: 0 <= j < r.value ==> !Matches(rows[j], o, k)
    ensures r.None? ==> forall j :: 0 <= j < |rows| ==> !Matches(rows[j], o, k)
  {
    if rows == [] then None
    else if Matches(rows[0], o, k) then Some(0)
    else
      match FirstMatch(rows[1..], o, k)
      case None => None
      case Some(i) => Some(i + 1)
  }

  /** Every customer the edit form offers has a row to update, and only those
      do: the first-match lookup of the edit path never comes back empty. */
  lemma EditLookupFinds(rows: seq<Row>, o: string, k: string)
    ensures k in EditChoices(rows, o) <==> FirstMatch(rows, o, k).Some?
  {
    if FirstMatch(rows, o, k).Some? {
      assert Matches(rows[FirstMatch(rows, o, k).value], o, k);
    }
  }

  /** The value the edit form is prefilled with: the current sales of the
      first row of the chosen branch and customer. */
  function Prefill(rows: seq<Row>, o: string, k: string): (v: real)
    requires k in EditChoices(rows, o)
    ensures exists i :: 0 <= i < |rows| && Matches(rows[i], o, k) && rows[i].current == v
                        && forall j :: 0 <= j < i ==> !Matches(rows[j], o, k)
  {
    EditLookupFinds(rows, o, k);
    rows[FirstMatch(rows, o, k).value].current
  }

  /** Two tables with the same branch and customer in every position. */
  predicate SameKeys(a: seq<Row>, b: seq<Row>) {
    |a| == |b| && forall i :: 0 <= i < |a| ==> a[i].branch == b[i].branch && a[i].customer == b[i].customer
  }

  lemma CustomersAppend(a: seq<Row>, b: seq<Row>)
    ensures Customers(a + b) == Customers(a) + Customers(b)
  {
  }

  /** Dropping the first row of both tables keeps their keys aligned. */
  lemma SameKeysTail(a: seq<Row>, b: seq<Row>)
    requires SameKeys(a, b) && a != []
    ensures SameKeys(a[1..], b[1..])
  {
    forall i | 0 <= i < |a| - 1 ensures a[1..][i].branch == b[1..][i].branch && a[1..][i].customer == b[1..][i].customer {
      assert a[1..][i] == a[i + 1] && b[1..][i] == b[i + 1];
    }
  }

  lemma {:induction false} SameKeysCustomers(a: seq<Row>, b: seq<Row>, o: string)
    requires SameKeys(a, b)
    ensures Customers(RowsOf(a, o)) == Customers(RowsOf(b, o))
  {
    if a != [] {
      SameKeysTail(a, b);
      SameKeysCustomers(a[1..], b[1..], o);
      var ha := if a[0].branch == o then [a[0]] else [];
      var hb := if b[0].branch == o then [b[0]] else [];
      assert RowsOf(a, o) == ha + RowsOf(a[1..], o);
      assert RowsOf(b, o) == hb + RowsOf(b[1..], o);
      CustomersAppend(ha, RowsOf(a[1..], o));
      CustomersAppend(hb, RowsOf(b[1..], o));
      assert Customers(ha) == Customers(hb);
    }
  }

  lemma {:induction false} SameKeysFirstMatch(a: seq<Row>, b: seq<Row>, o: string, k: string)
    requires SameKeys(a, b)
    ensures FirstMatch(a, o, k) == FirstMatch(b, o, k)
  {
    if a != [] && !Matches(a[0], o, k) {
      SameKeysTail(a, b);
      SameKeysFirstMatch(a[1..], b[1..], o, k);
    }
  }

  /** An update leaves the edit choices and the lookup of every key as they
      were: it never changes a branch or a customer. */
  lemma SameKeysLookups(a: seq<Row>, b: seq<Row>, o: string, k: string)
    requires SameKeys(a, b)
    ensures EditChoices(a, o) == EditChoices(b, o)
    ensures FirstMatch(a, o, k) == FirstMatch(b, o, k)
  {
    SameKeysCustomers(a, b, o);
    SameKeysFirstMatch(a, b, o, k);
  }

  /** A new row offers its customer for editing under its branch, after the
      customers already offered and only if it is not one of them; the
      choices of every other branch stay as they were. */
  lemma EditChoicesAfterAppend(rows: seq<Row>, row: Row, o: string)
    ensures EditChoices(rows + [row], o) ==
      if row.branch == o && row.customer !in EditChoices(rows, o)
      then EditChoices(rows, o) + [row.customer]
      else EditChoices(rows, o)
  {
    RowsOfAppend(rows, [row], o);
    assert [row][1..] == [];
    var c := Customers(RowsOf(rows, o));
    if row.branch == o {
      var s := Customers(RowsOf(rows + [row], o));
      assert s == c + [row.customer];
      assert s[..|s| - 1] == c;
    } else {
      assert RowsOf(rows + [row], o) == RowsOf(rows, o);
    }
  }

  /** The table of one browser session. `rows` is the DataFrame `df`. */
  class SalesTable {
    var rows: seq<Row>

    /** `load_data()` on a stored snapshot: no file gives an empty table with
        the six-column schema, otherwise the stored rows. */
    constructor Load(stored: Option<seq<Row>>)
      ensures rows == if stored.None? then [] else stored.value
    {
      rows := if stored.None? then [] else stored.value;
    }

    /** `save_data(df)`: the whole table is the snapshot written back. */
    function Snapshot(): (s: seq<Row>)
      reads this
      ensures |s| == |rows| && forall i :: 0 <= i < |s| ==> s[i] == rows[i]
    {
      rows
    }

    /** The "Nowy Klient" form: with a non-empty customer name, appends one
        row holding the form inputs and the timestamp; with an empty name,
        does nothing. The number inputs have a minimum of 0. */
    method Create(now: string, o: string, k: string, ly: real, cur: real, n: string)
      requires o in Branches && ly >= 0.0 && cur >= 0.0
      modifies this
      ensures NonNegative(old(rows)) ==> NonNegative(rows)
      ensures k == "" ==> rows == old(rows)
      ensures k != "" ==> |rows| == |old(rows)| + 1
                          && rows[..|old(rows)|] == old(rows)
                          && rows[|old(rows)|] == Row(now, o, k, ly, cur, Text(n))
    {
      if k != "" {
        var newRow := Row(now, o, k, ly, cur, Text(n));
        rows := rows + [newRow];
      }
    }

    /** The "Zaktualizuj" button: in the first row matching the branch and the
        customer, writes the new current sales and the timestamp and merges
        the new note into the old one. `found` is false, and nothing changes,
        when no row matches (where `.index[0]` would raise before saving). */
    method Update(now: string, o: string, k: string, newVal: real, newNote: string)
      returns (found: bool)
      requires newVal >= 0.0
      modifies this
      ensures found <==> FirstMatch(old(rows), o, k).Some?
      ensures !found ==> rows == old(rows)
      ensures found ==>
        var i := FirstMatch(old(rows), o, k).value;
        var was := old(rows)[i];
        && |rows| == |old(rows)|
        && (forall j :: 0 <= j < |rows| && j != i ==> rows[j] == old(rows)[j])
        && rows[i].branch == was.branch && rows[i].customer == was.customer
        && rows[i].priorYear == was.priorYear
        && rows[i].current == newVal && rows[i].stamp == now
        && rows[i].note == MergeNote(was.note, newNote)
      ensures SameKeys(old(rows), rows)
      ensures NonNegative(old(rows)) ==> NonNegative(rows)
    {
      var m := FirstMatch(rows, o, k);
      if m.None? {
        found := false;
        return;
      }
      found := true;
      var idx := m.value;
      // the three `df.at[idx, ...]` writes, gathered into one row
      var r := rows[idx].(current := newVal);
      r := r.(stamp := now);
      r := r.(note := MergeNote(r.note, newNote));
      rows := rows[idx := r];
    }
  }
}
