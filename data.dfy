/**
 * The in-memory shaping of the loaded tables: antigen loci, the antigens grouped by locus, the
 * DPB donor subset, the column rename rule and the band, matchability-antigen and default-antigen
 * dictionaries. Tables are values here; reading them from the database is not modelled.
 */
module Data {
  import opened Wrappers
  import opened Text
  import opened Calculator

  /** The version of the band table read when no other is named. */
  const DefaultMatchabilityVer := 4
  /** The one column with a locus that `antigens()` leaves out. */
  const ExcludedAntigen := "A19_S"

  // ---------------------------------------------------------------------------------------------
  // Loci

  /** A letter of the class `[ABCDRQPW]`. */
  predicate IsLocusLetter(c: char) {
    c == 'A' || c == 'B' || c == 'C' || c == 'D' || c == 'R' || c == 'Q' || c == 'P' || c == 'W'
  }

  /** `^([ABCDRQPW]{1,3})\d+` matches `s` with a letter group of length `k`. */
  predicate MatchesWithGroup(s: string, k: nat) {
    1 <= k <= 3 && k < |s| && (forall i :: 0 <= i < k ==> IsLocusLetter(s[i])) && IsDigit(s[k])
  }

  /** `_get_locus`: the regular expression tries the longest letter group first. */
  function GetLocus(s: string): (r: Option<string>)
    ensures r.Some? ==> 1 <= |r.value| <= 3 && MatchesWithGroup(s, |r.value|) && r.value == s[..|r.value|]
    ensures r.Some? ==> forall k :: |r.value| < k ==> !MatchesWithGroup(s, k)
    ensures r.None? <==> forall k :: !MatchesWithGroup(s, k)
  {
    if MatchesWithGroup(s, 3) then Some(s[..3])
    else if MatchesWithGroup(s, 2) then Some(s[..2])
    else if MatchesWithGroup(s, 1) then Some(s[..1])
    else None
  }

  /** The length of the leading run of locus letters. */
  function LeadingLetters(s: string): (n: nat)
    ensures n <= |s|
    ensures forall i :: 0 <= i < n ==> IsLocusLetter(s[i])
    ensures n < |s| ==> !IsLocusLetter(s[n])
  {
    if s != [] && IsLocusLetter(s[0]) then 1 + LeadingLetters(s[1..]) else 0
  }

  /**
   * The locus is the leading run of locus letters when that run has one to three letters and a digit
   * follows it; anything may come after the digit. Otherwise there is none.
   */
  lemma LocusIsLeadingRun(s: string)
    ensures var n := LeadingLetters(s);
            GetLocus(s) == if 1 <= n <= 3 && n < |s| && IsDigit(s[n]) then Some(s[..n]) else None
  {
    var n := LeadingLetters(s);
    forall k: nat | MatchesWithGroup(s, k) ensures k == n {
      assert !IsLocusLetter(s[k]);
    }
    if 1 <= n <= 3 && n < |s| && IsDigit(s[n]) {
      assert MatchesWithGroup(s, n);
    }
  }

  /** Column names of the donor table and their loci. */
  lemma LocusExamples()
    ensures GetLocus("A1") == Some("A") && GetLocus("B44") == Some("B") && GetLocus("CW3") == Some("CW")
    ensures GetLocus("DR1") == Some("DR") && GetLocus("DPB11") == Some("DPB") && GetLocus("DQ5") == Some("DQ")
    ensures GetLocus("BW4") == Some("BW") && GetLocus("A19_S") == Some("A")
  {
    assert MatchesWithGroup("BW4", 2) && !MatchesWithGroup("BW4", 3) && "BW4"[..2] == "BW";
    assert MatchesWithGroup("A1", 1) && MatchesWithGroup("B44", 1) && MatchesWithGroup("CW3", 2);
    assert MatchesWithGroup("DR1", 2) && MatchesWithGroup("DPB11", 3) && MatchesWithGroup("DQ5", 2);
    assert MatchesWithGroup("A19_S", 1);
    assert !MatchesWithGroup("B44", 2) && !MatchesWithGroup("CW3", 3) && !MatchesWithGroup("DR1", 3);
    assert !MatchesWithGroup("DQ5", 3) && !MatchesWithGroup("A19_S", 2) && !MatchesWithGroup("A19_S", 3);
    assert "A1"[..1] == "A" && "B44"[..1] == "B" && "CW3"[..2] == "CW" && "DR1"[..2] == "DR";
    assert "DPB11"[..3] == "DPB" && "DQ5"[..2] == "DQ" && "A19_S"[..1] == "A";
  }

  /** Names without a locus: other columns, a letter run that is too long, a letter outside the class. */
  lemma NoLocusExamples()
    ensures GetLocus("bg") == None && GetLocus("DRBQ1") == None && GetLocus("E1") == None && GetLocus("B") == None
  {
    assert "bg"[0] == 'b' && !IsLocusLetter('b');
    assert "E1"[0] == 'E' && !IsLocusLetter('E');
    assert "DRBQ1"[1] == 'R' && "DRBQ1"[2] == 'B' && "DRBQ1"[3] == 'Q';
    assert !IsDigit('Q') && !IsDigit('B') && !IsDigit('R');
  }

  // ---------------------------------------------------------------------------------------------
  // Grouping by key

  /** The values paired with `k`, in order. */
  function Select(ps: seq<(string, string)>, k: string): seq<string> {
    if ps == [] then [] else (if ps[0].0 == k then [ps[0].1] else []) + Select(ps[1..], k)
  }

  lemma {:induction false} SelectAppend(ps: seq<(string, string)>, p: (string, string), k: string)
    ensures Select(ps + [p], k) == Select(ps, k) + (if p.0 == k then [p.1] else [])
  {
    if ps != [] {
      assert (ps + [p])[1..] == ps[1..] + [p];
      SelectAppend(ps[1..], p, k);
    }
  }

  /** `Select` keeps every pair with key `k`, as often as it occurs, and nothing else. */
  lemma {:induction false} SelectCounts(ps: seq<(string, string)>, k: string, v: string)
    ensures multiset(Select(ps, k))[v] == multiset(ps)[(k, v)]
  {
    if ps != [] {
      SelectCounts(ps[1..], k, v);
      assert ps == [ps[0]] + ps[1..];
    }
  }

  lemma {:induction false} SelectNonEmpty(ps: seq<(string, string)>, k: string)
    ensures Select(ps, k) != [] <==> exists i :: 0 <= i < |ps| && ps[i].0 == k
  {
    if ps != [] {
      SelectNonEmpty(ps[1..], k);
      if exists i :: 0 <= i < |ps| && ps[i].0 == k {
        var i :| 0 <= i < |ps| && ps[i].0 == k;
        if i > 0 {
          assert ps[1..][i - 1].0 == k;
        }
      }
      if exists i :: 0 <= i < |ps[1..]| && ps[1..][i].0 == k {
        var i :| 0 <= i < |ps[1..]| && ps[1..][i].0 == k;
        assert ps[i + 1].0 == k;
      }
    }
  }

  /** The values grouped by key, as appending each pair in turn to a `defaultdict(list)` builds them. */
  function GroupPairs(ps: seq<(string, string)>): map<string, seq<string>> {
    if ps == [] then map[]
    else
      var p := ps[|ps| - 1];
      var m := GroupPairs(ps[..|ps| - 1]);
      m[p.0 := (if p.0 in m then m[p.0] else []) + [p.1]]
  }

  /** A key is grouped when some pair has it, and it maps to the values paired with it, in order. */
  lemma {:induction false} GroupPairsSelect(ps: seq<(string, string)>, k: string)
    ensures k in GroupPairs(ps) <==> Select(ps, k) != []
    ensures k in GroupPairs(ps) ==> GroupPairs(ps)[k] == Select(ps, k)
  {
    if ps != [] {
      var init := ps[..|ps| - 1];
      var p := ps[|ps| - 1];
      assert ps == init + [p];
      GroupPairsSelect(init, k);
      SelectAppend(init, p, k);
    }
  }

  lemma GroupPairsSnoc(ps: seq<(string, string)>, p: (string, string))
    ensures GroupPairs(ps + [p])
            == var m := GroupPairs(ps); m[p.0 := (if p.0 in m then m[p.0] else []) + [p.1]]
  {
    assert (ps + [p])[..|ps + [p]| - 1] == ps;
  }

  /** Grouping puts every value under its own key, as often as the pair occurs. */
  lemma GroupPairsMeaning(ps: seq<(string, string)>)
    ensures forall k :: k in GroupPairs(ps) <==> exists i :: 0 <= i < |ps| && ps[i].0 == k
    ensures forall k, v :: k in GroupPairs(ps) ==> multiset(GroupPairs(ps)[k])[v] == multiset(ps)[(k, v)]
  {
    forall k ensures k in GroupPairs(ps) <==> exists i :: 0 <= i < |ps| && ps[i].0 == k {
      GroupPairsSelect(ps, k);
      SelectNonEmpty(ps, k);
    }
    forall k, v | k in GroupPairs(ps) ensures multiset(GroupPairs(ps)[k])[v] == multiset(ps)[(k, v)] {
      GroupPairsSelect(ps, k);
      SelectCounts(ps, k, v);
    }
  }

  // ---------------------------------------------------------------------------------------------
  // antigens()

  /** A column `antigens()` lists: it has a locus and is not the excluded antigen. */
  predicate Listed(col: string) {
    col != ExcludedAntigen && GetLocus(col).Some?
  }

  /** The (locus, column) pairs of the listed columns, in column order. */
  function LocusPairs(columns: seq<string>): seq<(string, string)> {
    if columns == [] then []
    else
      var last := columns[|columns| - 1];
      LocusPairs(columns[..|columns| - 1]) + (if Listed(last) then [(GetLocus(last).value, last)] else [])
  }

  /** A pair occurs as often as its column when the column is listed under that locus, else never. */
  lemma {:induction false} LocusPairsCounts(columns: seq<string>, p: (string, string))
    ensures multiset(LocusPairs(columns))[p]
            == if Listed(p.1) && GetLocus(p.1) == Some(p.0) then multiset(columns)[p.1] else 0
  {
    if columns != [] {
      var init := columns[..|columns| - 1];
      assert columns == init + [columns[|columns| - 1]];
      LocusPairsCounts(init, p);
    }
  }

  /**
   * `antigens()`: each locus maps to the listed columns of that locus, in column order; every listed
   * column appears under its locus exactly as often as it is a column, and nothing else appears.
   */
  method Antigens(columns: seq<string>) returns (groups: map<string, seq<string>>)
    ensures groups == GroupPairs(LocusPairs(columns))
    ensures forall l :: l in groups <==> exists c :: c in columns && Listed(c) && GetLocus(c) == Some(l)
    ensures forall l, c :: l in groups ==>
              multiset(groups[l])[c] == if Listed(c) && GetLocus(c) == Some(l) then multiset(columns)[c] else 0
  {
    groups := map[];
    for i := 0 to |columns|
      invariant groups == GroupPairs(LocusPairs(columns[..i]))
    {
      var col := columns[i];
      ghost var before := LocusPairs(columns[..i]);
      assert columns[..i + 1][..i] == columns[..i];
      assert LocusPairs(columns[..i + 1]) == before + (if Listed(col) then [(GetLocus(col).value, col)] else []);
      assert before + [] == before;
      if col != ExcludedAntigen {
        var locus := GetLocus(col);
        if locus.Some? {
          GroupPairsSnoc(before, (locus.value, col));
          var listed := if locus.value in groups then groups[locus.value] else [];
          groups := groups[locus.value := listed + [col]];
        }
      }
    }
    assert columns[..|columns|] == columns;
    AntigensMeaning(columns);
  }

  lemma AntigensMeaning(columns: seq<string>)
    ensures forall l :: l in GroupPairs(LocusPairs(columns)) <==> exists c :: c in columns && Listed(c) && GetLocus(c) == Some(l)
    ensures forall l, c :: l in GroupPairs(LocusPairs(columns)) ==>
              multiset(GroupPairs(LocusPairs(columns))[l])[c]
              == if Listed(c) && GetLocus(c) == Some(l) then multiset(columns)[c] else 0
  {
    forall l {
      AntigenLocus(columns, l);
    }
    forall l, c | l in GroupPairs(LocusPairs(columns)) {
      AntigenCount(columns, l, c);
    }
  }

  lemma AntigenCount(columns: seq<string>, l: string, c: string)
    requires l in GroupPairs(LocusPairs(columns))
    ensures multiset(GroupPairs(LocusPairs(columns))[l])[c]
            == if Listed(c) && GetLocus(c) == Some(l) then multiset(columns)[c] else 0
  {
    var ps := LocusPairs(columns);
    GroupPairsSelect(ps, l);
    SelectCounts(ps, l, c);
    LocusPairsCounts(columns, (l, c));
  }

  lemma AntigenLocus(columns: seq<string>, l: string)
    ensures l in GroupPairs(LocusPairs(columns)) <==> exists c :: c in columns && Listed(c) && GetLocus(c) == Some(l)
  {
    var ps := LocusPairs(columns);
    GroupPairsSelect(ps, l);
    SelectNonEmpty(ps, l);
    if l in GroupPairs(ps) {
      var i :| 0 <= i < |ps| && ps[i].0 == l;
      var c := ps[i].1;
      assert ps[i] == (l, c);
      assert multiset(ps)[(l, c)] > 0;
      LocusPairsCounts(columns, (l, c));
      assert c in columns;
    }
    if c :| c in columns && Listed(c) && GetLocus(c) == Some(l) {
      LocusPairsCounts(columns, (l, c));
      assert (l, c) in ps;
      var i :| 0 <= i < |ps| && ps[i] == (l, c);
    }
  }

  /** `matchability_antigens()`: the antigens of the table grouped by locus, in row order. */
  function MatchabilityAntigens(rows: seq<(string, string)>): (r: map<string, seq<string>>)
    ensures forall l :: l in r <==> exists i :: 0 <= i < |rows| && rows[i].0 == l
    ensures forall l, a :: l in r ==> multiset(r[l])[a] == multiset(rows)[(l, a)]
  {
    GroupPairsMeaning(rows);
    GroupPairs(rows)
  }

  // ---------------------------------------------------------------------------------------------
  // The DPB donor subset

  /** The DPB columns: those whose name contains "DPB". */
  function DpbColumns(columns: seq<string>): (r: seq<string>)
    ensures forall c :: c in r <==> c in columns && Contains(c, "DPB")
  {
    if columns == [] then []
    else (if Contains(columns[0], "DPB") then [columns[0]] else []) + DpbColumns(columns[1..])
  }

  /** `data[dpb_cols].sum(axis=1)` for one row. */
  function FlagSum(d: Donor, cols: seq<string>): int {
    if cols == [] then 0 else Flag(d, cols[0]) + FlagSum(d, cols[1..])
  }

  /** A donor whose DPB cells are all 0 or empty has sum 0. */
  lemma {:induction false} NoDpbTypeSumsToZero(d: Donor, cols: seq<string>)
    requires forall c :: c in cols ==> Flag(d, c) == 0
    ensures FlagSum(d, cols) == 0
  {
    if cols != [] {
      NoDpbTypeSumsToZero(d, cols[1..]);
    }
  }

  /** The rows whose DPB sum is positive, each as often as in the table. */
  function WithDpb(rows: seq<Donor>, dpbColumns: seq<string>): (r: seq<Donor>)
    ensures forall d :: multiset(r)[d] == if FlagSum(d, dpbColumns) > 0 then multiset(rows)[d] else 0
  {
    if rows == [] then []
    else
      assert rows == [rows[0]] + rows[1..];
      (if FlagSum(rows[0], dpbColumns) > 0 then [rows[0]] else []) + WithDpb(rows[1..], dpbColumns)
  }

  /**
   * `_load_donors`: the whole table, and the table of the donors whose DPB columns sum to more than 0,
   * which holds only rows of the first.
   */
  function LoadDonors(data: Table): (r: (Table, Table))
    ensures r.0 == data && r.1.columns == data.columns
    ensures multiset(r.1.rows) <= multiset(data.rows)
    ensures forall d :: d in r.1.rows <==> d in data.rows && FlagSum(d, DpbColumns(data.columns)) > 0
    ensures forall d :: multiset(r.1.rows)[d] == if FlagSum(d, DpbColumns(data.columns)) > 0 then multiset(data.rows)[d] else 0
  {
    var dpb := WithDpb(data.rows, DpbColumns(data.columns));
    assert forall d :: d in dpb <==> multiset(dpb)[d] > 0;
    (data, Table(data.columns, dpb))
  }

  // ---------------------------------------------------------------------------------------------
  // Column renaming

  /** A column label: the name read from the database, or the integer an all-digit name became. */
  datatype ColumnKey = Named(name: string) | Numbered(number: nat)

  /** The rename rule of `_load_table`: an all-digit name becomes its integer, any other label stays. */
  function Renamed(k: ColumnKey): ColumnKey {
    match k
    case Named(s) => if AllDigits(s) then Numbered(DecimalValue(s)) else k
    case Numbered(_) => k
  }

  /** The name `str(n)` becomes the integer `n`. */
  lemma RenamedNumberName(n: nat)
    ensures Renamed(Named(DecimalString(n))) == Numbered(n)
  {
    DecimalRoundTrip(n);
  }

  /** `df.rename(columns=rename_dict, inplace=True)`: every column label is renamed where it stands. */
  method RenameColumns(columns: array<ColumnKey>)
    modifies columns
    ensures forall i :: 0 <= i < columns.Length ==> columns[i] == Renamed(old(columns[i]))
  {
    for i := 0 to columns.Length
      invariant forall j :: 0 <= j < i ==> columns[j] == Renamed(old(columns[j]))
      invariant forall j :: i <= j < columns.Length ==> columns[j] == old(columns[j])
    {
      columns[i] := Renamed(columns[i]);
    }
  }

  // ---------------------------------------------------------------------------------------------
  // Dictionaries keyed by a column

  /** `dict(...)` of a keyed column, one entry per row (None for a row filtered out); a later row wins. */
  function ToDict<V>(entries: seq<Option<(string, V)>>): map<string, V> {
    if entries == [] then map[]
    else
      var m := ToDict(entries[1..]);
      var e := entries[0];
      if e.Some? && e.value.0 !in m then m[e.value.0 := e.value.1] else m
  }

  /** A key is in the dictionary exactly when some entry has it. */
  lemma {:induction false} ToDictKeys<V>(entries: seq<Option<(string, V)>>, k: string)
    ensures k in ToDict(entries) <==> exists i :: 0 <= i < |entries| && entries[i].Some? && entries[i].value.0 == k
  {
    if entries != [] {
      ToDictKeys(entries[1..], k);
      if k in ToDict(entries[1..]) {
        var i :| 0 <= i < |entries| - 1 && entries[1..][i].Some? && entries[1..][i].value.0 == k;
        assert entries[i + 1] == entries[1..][i];
      }
      if i :| 0 <= i < |entries| && entries[i].Some? && entries[i].value.0 == k {
        if i > 0 {
          assert entries[1..][i - 1] == entries[i];
        }
      }
    }
  }

  /** A key maps to the value of the last entry with that key. */
  lemma {:induction false} ToDictLast<V>(entries: seq<Option<(string, V)>>, k: string)
    requires k in ToDict(entries)
    ensures exists i :: 0 <= i < |entries| && entries[i].Some? && entries[i].value.0 == k && entries[i].value.1 == ToDict(entries)[k]
                        && forall j :: i < j < |entries| && entries[j].Some? ==> entries[j].value.0 != k
  {
    var m := ToDict(entries[1..]);
    if k in m {
      ToDictLast(entries[1..], k);
      var i :| 0 <= i < |entries| - 1 && entries[1..][i].Some? && entries[1..][i].value.0 == k
               && entries[1..][i].value.1 == m[k]
               && forall j :: i < j < |entries| - 1 && entries[1..][j].Some? ==> entries[1..][j].value.0 != k;
      assert entries[i + 1] == entries[1..][i];
      forall j | i + 1 < j < |entries| && entries[j].Some? ensures entries[j].value.0 != k {
        assert entries[j] == entries[1..][j - 1];
      }
    } else {
      forall j | 0 < j < |entries| && entries[j].Some? ensures entries[j].value.0 != k {
        assert entries[j] == entries[1..][j - 1];
        ToDictKeys(entries[1..], k);
      }
    }
  }

  /** One row of the band table: group, version, sizes, and the cells of its numbered band columns. */
  datatype BandRow = BandRow(bg: string, ver: int, sizes: string, cells: seq<(int, Option<int>)>)

  /** `row.dropna().to_dict()`: the filled band cells, in column order. */
  function DropEmpty(cells: seq<(int, Option<int>)>): (r: seq<(int, int)>)
    ensures forall b, v :: (b, v) in r <==> (b, Some(v)) in cells
  {
    if cells == [] then []
    else (if cells[0].1.Some? then [(cells[0].0, cells[0].1.value)] else []) + DropEmpty(cells[1..])
  }

  /**
   * `matchability_bands()`: the rows of version `ver` keyed by blood group, the `ver` and `sizes`
   * columns dropped and the empty cells left out; a later row of a group replaces an earlier one.
   */
  function MatchabilityBands(rows: seq<BandRow>, ver: int): (r: map<string, seq<(int, int)>>)
    ensures forall g :: g in r <==> exists i :: 0 <= i < |rows| && rows[i].ver == ver && rows[i].bg == g
    ensures forall g :: g in r ==>
              exists i :: 0 <= i < |rows| && rows[i].ver == ver && rows[i].bg == g && r[g] == DropEmpty(rows[i].cells)
                          && forall j :: i < j < |rows| && rows[j].ver == ver ==> rows[j].bg != g
  {
    var entries := seq(|rows|, i requires 0 <= i < |rows| =>
                         if rows[i].ver == ver then Some((rows[i].bg, DropEmpty(rows[i].cells))) else None);
    var r := ToDict(entries);
    assert forall i :: 0 <= i < |rows| ==> (entries[i].Some? <==> rows[i].ver == ver);
    assert forall i :: 0 <= i < |rows| && entries[i].Some? ==>
             entries[i].value == (rows[i].bg, DropEmpty(rows[i].cells));
    forall g {
      ToDictKeys(entries, g);
    }
    forall g | g in r {
      ToDictLast(entries, g);
    }
    r
  }

  /** A group with a single row of the version maps to that row's filled cells. */
  lemma SingleRowBands(rows: seq<BandRow>, ver: int, i: int)
    requires 0 <= i < |rows| && rows[i].ver == ver
    requires forall j :: 0 <= j < |rows| && j != i && rows[j].ver == ver ==> rows[j].bg != rows[i].bg
    ensures rows[i].bg in MatchabilityBands(rows, ver)
    ensures MatchabilityBands(rows, ver)[rows[i].bg] == DropEmpty(rows[i].cells)
  {
  }

  /** One row of the default-antigen table. */
  datatype DefaultRow = DefaultRow(rare: string, common: string, locus: string)

  /** The rows `where locus in ('B', 'DR')` selects. */
  predicate DefaultSelected(row: DefaultRow) {
    row.locus == "B" || row.locus == "DR"
  }

  /** `antigen_defaults()`: each rare B or DR antigen mapped to its common default; a later row wins. */
  function AntigenDefaults(rows: seq<DefaultRow>): (r: map<string, string>)
    ensures forall a :: a in r <==> exists i :: 0 <= i < |rows| && DefaultSelected(rows[i]) && rows[i].rare == a
    ensures forall a :: a in r ==>
              exists i :: 0 <= i < |rows| && DefaultSelected(rows[i]) && rows[i].rare == a && r[a] == rows[i].common
                          && forall j :: i < j < |rows| && DefaultSelected(rows[j]) ==> rows[j].rare != a
  {
    var entries := seq(|rows|, i requires 0 <= i < |rows| =>
                         if DefaultSelected(rows[i]) then Some((rows[i].rare, rows[i].common)) else None);
    var r := ToDict(entries);
    assert forall i :: 0 <= i < |rows| ==> (entries[i].Some? <==> DefaultSelected(rows[i]));
    assert forall i :: 0 <= i < |rows| && entries[i].Some? ==> entries[i].value == (rows[i].rare, rows[i].common);
    forall a {
      ToDictKeys(entries, a);
    }
    forall a | a in r {
      ToDictLast(entries, a);
    }
    r
  }

  // ---------------------------------------------------------------------------------------------
  // The loaded data

  /** `LoadedData`: the two donor sets and the dictionaries the calculator is given. */
  datatype LoadedData = LoadedData(
    donors: (Table, Table),
    antigens: map<string, seq<string>>,
    mbands: map<string, seq<(int, int)>>,
    mantigens: map<string, seq<string>>,
    antigenDefaults: map<string, string>)

  /** `base_data`: everything loaded from the tables, for the default band version. */
  method BaseData(donorTable: Table, bandRows: seq<BandRow>, antigenRows: seq<(string, string)>,
                  defaultRows: seq<DefaultRow>) returns (data: LoadedData)
    ensures data.donors == LoadDonors(donorTable)
    ensures data.antigens == GroupPairs(LocusPairs(donorTable.columns))
    ensures data.mbands == MatchabilityBands(bandRows, DefaultMatchabilityVer)
    ensures data.mantigens == MatchabilityAntigens(antigenRows)
    ensures data.antigenDefaults == AntigenDefaults(defaultRows)
  {
    var donors := LoadDonors(donorTable);
    var antigens := Antigens(donors.0.columns);
    data := LoadedData(donors, antigens, MatchabilityBands(bandRows, DefaultMatchabilityVer),
                       MatchabilityAntigens(antigenRows), AntigenDefaults(defaultRows));
  }
}
