/**
 * The compatibility arithmetic of the calculator: the split of blood-group-identical donors into
 * compatible and incompatible ones, cRF as a pair of counts, the favourable donor count and the
 * matchability band.
 */
module Calculator {
  import opened Wrappers

  /** One donor row: the blood group and the value in each HLA antigen column (1 = carries it). */
  datatype Donor = Donor(bg: string, flags: map<string, int>)

  /** A donor table: its column names, in order, and its rows. */
  datatype Table = Table(columns: seq<string>, rows: seq<Donor>)

  /** A donor's cell in an antigen column; an empty cell reads as 0, as NaN does under `.eq(1)` and `.sum()`. */
  function Flag(d: Donor, antigen: string): int {
    if antigen in d.flags then d.flags[antigen] else 0
  }

  /** What makes the calculation raise, as a value. */
  datatype CalcError =
    | MissingColumns(names: seq<string>)   // KeyError: selected columns the table lacks
    | MissingKey(key: string)              // KeyError: an absent dictionary key
    | NoDonors                             // ZeroDivisionError: no donor of the recipient's blood group
    | NoBand(favourable: nat)              // StopIteration: no band threshold is met

  /** cRF as the two counts it is the quotient of: incompatible / total. */
  datatype Ratio = Ratio(incompatible: nat, total: nat)

  /** The record `calculate` returns. */
  datatype Results = Results(crf: Ratio, available: nat, favourable: Option<nat>, matchability: Option<int>)

  /** The two loci the favourable rule looks at. */
  datatype Locus = LocusB | LocusDR {
    function Key(): string {
      match this
      case LocusB => "B"
      case LocusDR => "DR"
    }
  }

  /** A compatible donor's B and DR types: the matchability antigens it carries. */
  datatype DonorTypes = DonorTypes(b: set<string>, dr: set<string>) {
    function At(locus: Locus): set<string> {
      match locus
      case LocusB => b
      case LocusDR => dr
    }
  }

  /** The names that are not columns, in order: the ones pandas reports in its KeyError. */
  function Missing(names: seq<string>, columns: seq<string>): (r: seq<string>)
    ensures forall n :: n in r <==> n in names && n !in columns
    ensures r == [] <==> forall n :: n in names ==> n in columns
  {
    if names == [] then []
    else (if names[0] in columns then [] else [names[0]]) + Missing(names[1..], columns)
  }

  // ---------------------------------------------------------------------------------------------
  // Blood group filter and the compatible / incompatible split

  /** `donors[donors.bg == abo]`: the rows of the recipient's blood group, each as often as in the table. */
  function SameGroup(rows: seq<Donor>, abo: string): (r: seq<Donor>)
    ensures forall d :: multiset(r)[d] == if d.bg == abo then multiset(rows)[d] else 0
    ensures |r| <= |rows|
  {
    if rows == [] then []
    else
      assert rows == [rows[0]] + rows[1..];
      (if rows[0].bg == abo then [rows[0]] else []) + SameGroup(rows[1..], abo)
  }

  /** `has_dsa`: the donor has flag 1 for at least one of the recipient's unacceptable antigens. */
  predicate HasDsa(d: Donor, specs: seq<string>) {
    exists ag :: ag in specs && Flag(d, ag) == 1
  }

  /** `_get_donors`: (compatible, incompatible) donors, each in table order. */
  function SplitDonors(donors: seq<Donor>, specs: seq<string>): (r: (seq<Donor>, seq<Donor>))
    ensures multiset(r.0) + multiset(r.1) == multiset(donors)
    ensures forall d :: d in r.0 ==> !HasDsa(d, specs)
    ensures forall d :: d in r.1 ==> HasDsa(d, specs)
  {
    if donors == [] then ([], [])
    else
      assert donors == [donors[0]] + donors[1..];
      var rest := SplitDonors(donors[1..], specs);
      if HasDsa(donors[0], specs) then (rest.0, [donors[0]] + rest.1)
      else ([donors[0]] + rest.0, rest.1)
  }

  /** Compatible and incompatible donors partition the donors: disjoint, covering, counts adding up. */
  lemma SplitPartition(donors: seq<Donor>, specs: seq<string>)
    ensures |SplitDonors(donors, specs).0| + |SplitDonors(donors, specs).1| == |donors|
    ensures forall d :: d in SplitDonors(donors, specs).1 <==> d in donors && HasDsa(d, specs)
    ensures forall d :: d in SplitDonors(donors, specs).0 <==> d in donors && !HasDsa(d, specs)
    ensures forall d :: !(d in SplitDonors(donors, specs).0 && d in SplitDonors(donors, specs).1)
  {
    var r := SplitDonors(donors, specs);
    assert |multiset(r.0) + multiset(r.1)| == |multiset(donors)|;
    forall d
      ensures d in r.1 <==> d in donors && HasDsa(d, specs)
      ensures d in r.0 <==> d in donors && !HasDsa(d, specs)
    {
      assert multiset(r.0)[d] + multiset(r.1)[d] == multiset(donors)[d];
    }
  }

  /** With no unacceptable antigens every donor is compatible. */
  lemma {:induction false} NoSpecsAllCompatible(donors: seq<Donor>)
    ensures SplitDonors(donors, []) == (donors, [])
  {
    if donors != [] {
      NoSpecsAllCompatible(donors[1..]);
      assert [donors[0]] + donors[1..] == donors;
    }
  }

  /** Adding unacceptable antigens only moves donors from compatible to incompatible. */
  lemma {:induction false} MoreSpecsMoreIncompatible(donors: seq<Donor>, specs: seq<string>, more: seq<string>)
    requires forall ag :: ag in specs ==> ag in more
    ensures multiset(SplitDonors(donors, specs).1) <= multiset(SplitDonors(donors, more).1)
    ensures multiset(SplitDonors(donors, more).0) <= multiset(SplitDonors(donors, specs).0)
    ensures |SplitDonors(donors, specs).1| <= |SplitDonors(donors, more).1|
    ensures |SplitDonors(donors, more).0| <= |SplitDonors(donors, specs).0|
  {
    if donors != [] {
      MoreSpecsMoreIncompatible(donors[1..], specs, more);
      if HasDsa(donors[0], specs) {
        var ag :| ag in specs && Flag(donors[0], ag) == 1;
        assert ag in more;
      }
    }
    SplitPartition(donors, specs);
    SplitPartition(donors, more);
  }

  // ---------------------------------------------------------------------------------------------
  // B / DR mismatches and the favourable rule

  /** `set(x.index[x])` of a `.eq(1)` mask: the antigens among `antigens` the donor has flag 1 for. */
  function Carried(d: Donor, antigens: seq<string>): set<string> {
    set ag | ag in antigens && Flag(d, ag) == 1
  }

  /** The recipient's types at a locus; an absent locus reads as empty, as with `defaultdict(set)`. */
  function RecipientTypes(recipient: map<string, set<string>>, locus: Locus): set<string> {
    if locus.Key() in recipient then recipient[locus.Key()] else {}
  }

  /** The antigen columns `hla_bdr` lists for a locus; an absent locus lists none. */
  function LocusColumns(hlaBdr: map<string, seq<string>>, locus: Locus): seq<string> {
    if locus.Key() in hlaBdr then hlaBdr[locus.Key()] else []
  }

  /** The recipient's types extended with the common default of each rare type among them. */
  function WithDefaults(types: set<string>, defaults: map<string, string>): set<string> {
    types + set ag | ag in types && ag in defaults :: defaults[ag]
  }

  /** A donor type counts as matched when the recipient has it, or has a rare type it is the default of. */
  predicate Covered(ag: string, recipientTypes: set<string>, defaults: map<string, string>) {
    ag in recipientTypes || exists rare :: rare in recipientTypes && rare in defaults && defaults[rare] == ag
  }

  /** The extended recipient types are exactly the types that count as matched. */
  lemma CoveredIsExtended(ag: string, recipientTypes: set<string>, defaults: map<string, string>)
    ensures ag in WithDefaults(recipientTypes, defaults) <==> Covered(ag, recipientTypes, defaults)
  {
    if Covered(ag, recipientTypes, defaults) && ag !in recipientTypes {
      var rare :| rare in recipientTypes && rare in defaults && defaults[rare] == ag;
      assert ag in set a | a in recipientTypes && a in defaults :: defaults[a];
    }
  }

  lemma UncoveredIsDifference(donorTypes: set<string>, recipientTypes: set<string>, defaults: map<string, string>)
    ensures donorTypes - WithDefaults(recipientTypes, defaults)
            == set ag | ag in donorTypes && !Covered(ag, recipientTypes, defaults)
  {
    forall ag | ag in donorTypes {
      CoveredIsExtended(ag, recipientTypes, defaults);
    }
  }

  lemma {:induction false} SubsetCardinality(a: set<string>, b: set<string>)
    requires a <= b
    ensures |a| <= |b|
  {
    if a != {} {
      var x :| x in a;
      SubsetCardinality(a - {x}, b - {x});
    }
  }

  /**
   * `len(d.difference(recipient_bdr))` with the recipient's types extended by defaults (the copy
   * `_get_matching` updates with the defaults of the rare types it holds).
   */
  function Mismatches(donorTypes: set<string>, recipientTypes: set<string>, defaults: map<string, string>): nat {
    |donorTypes - WithDefaults(recipientTypes, defaults)|
  }

  /**
   * The mismatch count is the number of donor types the recipient does not cover; it is at most the
   * count against the recipient's own types, and it is 0 exactly when every donor type is covered.
   */
  lemma MismatchesCountUncovered(donorTypes: set<string>, recipientTypes: set<string>, defaults: map<string, string>)
    ensures Mismatches(donorTypes, recipientTypes, defaults)
            == |set ag | ag in donorTypes && !Covered(ag, recipientTypes, defaults)|
    ensures Mismatches(donorTypes, recipientTypes, defaults) <= |donorTypes - recipientTypes|
    ensures Mismatches(donorTypes, recipientTypes, defaults) == 0
            <==> forall ag :: ag in donorTypes ==> Covered(ag, recipientTypes, defaults)
  {
    UncoveredIsDifference(donorTypes, recipientTypes, defaults);
    SubsetCardinality(donorTypes - WithDefaults(recipientTypes, defaults), donorTypes - recipientTypes);
    NoMismatchIffCovered(donorTypes, recipientTypes, defaults);
  }

  lemma NoMismatchIffCovered(donorTypes: set<string>, recipientTypes: set<string>, defaults: map<string, string>)
    ensures donorTypes - WithDefaults(recipientTypes, defaults) == {}
            <==> forall ag :: ag in donorTypes ==> Covered(ag, recipientTypes, defaults)
  {
    var u := donorTypes - WithDefaults(recipientTypes, defaults);
    if u == {} {
      forall ag | ag in donorTypes ensures Covered(ag, recipientTypes, defaults) {
        CoveredIsExtended(ag, recipientTypes, defaults);
        assert ag !in u;
      }
    } else {
      var x :| x in u;
      CoveredIsExtended(x, recipientTypes, defaults);
    }
  }

  /** Adding recipient types never increases a donor's mismatch count. */
  lemma MoreRecipientTypesFewerMismatches(donorTypes: set<string>, fewer: set<string>, more: set<string>, defaults: map<string, string>)
    requires fewer <= more
    ensures Mismatches(donorTypes, more, defaults) <= Mismatches(donorTypes, fewer, defaults)
  {
    SubsetCardinality(donorTypes - WithDefaults(more, defaults), donorTypes - WithDefaults(fewer, defaults));
  }

  /** The favourable rule: no DR mismatch and at most one B mismatch, or one DR mismatch and no B mismatch. */
  function IsFavourable(b: nat, dr: nat): (r: bool)
    ensures r <==> b + dr <= 1
  {
    (dr == 0 && b < 2) || (dr == 1 && b == 0)
  }

  /** `matchings.apply(rule, axis=1).sum()`: the rows, pairing the two series, the favourable rule accepts. */
  function CountFavourable(b: seq<nat>, dr: seq<nat>): (n: nat)
    requires |b| == |dr|
    ensures n <= |b|
    ensures n == 0 <==> forall i :: 0 <= i < |b| ==> !IsFavourable(b[i], dr[i])
    ensures n == |b| <==> forall i :: 0 <= i < |b| ==> IsFavourable(b[i], dr[i])
  {
    if b == [] then 0
    else (if IsFavourable(b[0], dr[0]) then 1 else 0) + CountFavourable(b[1..], dr[1..])
  }

  /** The favourable rule judged on one donor directly, from its rows and the recipient's types. */
  predicate FavourableDonor(d: Donor, bAntigens: seq<string>, drAntigens: seq<string>,
                            recipient: map<string, set<string>>, defaults: map<string, string>)
  {
    IsFavourable(Mismatches(Carried(d, bAntigens), RecipientTypes(recipient, LocusB), defaults),
                 Mismatches(Carried(d, drAntigens), RecipientTypes(recipient, LocusDR), defaults))
  }

  /** The donors the favourable rule accepts, in order. */
  function FavourableDonors(donors: seq<Donor>, bAntigens: seq<string>, drAntigens: seq<string>,
                            recipient: map<string, set<string>>, defaults: map<string, string>): (r: seq<Donor>)
    ensures |r| <= |donors|
  {
    if donors == [] then []
    else
      var rest := FavourableDonors(donors[1..], bAntigens, drAntigens, recipient, defaults);
      if FavourableDonor(donors[0], bAntigens, drAntigens, recipient, defaults) then [donors[0]] + rest else rest
  }

  /** A donor is listed exactly when it is one of the donors and the favourable rule accepts it. */
  lemma {:induction false} FavourableDonorsMembers(donors: seq<Donor>, bAntigens: seq<string>, drAntigens: seq<string>,
                                                   recipient: map<string, set<string>>, defaults: map<string, string>, d: Donor)
    ensures d in FavourableDonors(donors, bAntigens, drAntigens, recipient, defaults)
            <==> d in donors && FavourableDonor(d, bAntigens, drAntigens, recipient, defaults)
  {
    if donors != [] {
      var rest := FavourableDonors(donors[1..], bAntigens, drAntigens, recipient, defaults);
      FavourableDonorsMembers(donors[1..], bAntigens, drAntigens, recipient, defaults, d);
      FilterStep(donors, rest, FavourableDonors(donors, bAntigens, drAntigens, recipient, defaults),
                 FavourableDonor(donors[0], bAntigens, drAntigens, recipient, defaults),
                 FavourableDonor(d, bAntigens, drAntigens, recipient, defaults), d);
    }
  }

  /** Each donor is listed as often as it occurs among the donors when the rule accepts it, and never otherwise. */
  lemma {:induction false} FavourableDonorsCount(donors: seq<Donor>, bAntigens: seq<string>, drAntigens: seq<string>,
                                                 recipient: map<string, set<string>>, defaults: map<string, string>, d: Donor)
    ensures multiset(FavourableDonors(donors, bAntigens, drAntigens, recipient, defaults))[d]
            == if FavourableDonor(d, bAntigens, drAntigens, recipient, defaults) then multiset(donors)[d] else 0
  {
    if donors != [] {
      var rest := FavourableDonors(donors[1..], bAntigens, drAntigens, recipient, defaults);
      FavourableDonorsCount(donors[1..], bAntigens, drAntigens, recipient, defaults, d);
      FilterCountStep(donors, rest, FavourableDonors(donors, bAntigens, drAntigens, recipient, defaults),
                      FavourableDonor(donors[0], bAntigens, drAntigens, recipient, defaults),
                      FavourableDonor(d, bAntigens, drAntigens, recipient, defaults), d);
    }
  }

  /** One step of a filter, counted: the head adds one occurrence when it is kept. */
  lemma FilterCountStep<T>(xs: seq<T>, rest: seq<T>, r: seq<T>, keepHead: bool, keepD: bool, d: T)
    requires xs != []
    requires r == (if keepHead then [xs[0]] + rest else rest)
    requires multiset(rest)[d] == if keepD then multiset(xs[1..])[d] else 0
    requires d == xs[0] ==> (keepD <==> keepHead)
    ensures multiset(r)[d] == if keepD then multiset(xs)[d] else 0
  {
    assert xs == [xs[0]] + xs[1..];
  }

  /** One step of a filter: the head is listed when it is kept, and the rest of the listing is the filtered tail. */
  lemma FilterStep<T>(xs: seq<T>, rest: seq<T>, r: seq<T>, keepHead: bool, keepD: bool, d: T)
    requires xs != []
    requires r == (if keepHead then [xs[0]] + rest else rest)
    requires d in rest <==> d in xs[1..] && keepD
    requires d == xs[0] ==> (keepD <==> keepHead)
    ensures d in r <==> d in xs && keepD
  {
    assert xs == [xs[0]] + xs[1..];
  }

  /** Each donor's B and DR types: the listed antigens of that locus whose flag is 1 in the donor's row. */
  function TypesOf(donors: seq<Donor>, bAntigens: seq<string>, drAntigens: seq<string>): (r: seq<DonorTypes>)
    ensures |r| == |donors|
    ensures forall i, ag :: 0 <= i < |r| ==> (ag in r[i].b <==> ag in bAntigens && Flag(donors[i], ag) == 1)
    ensures forall i, ag :: 0 <= i < |r| ==> (ag in r[i].dr <==> ag in drAntigens && Flag(donors[i], ag) == 1)
  {
    seq(|donors|, i requires 0 <= i < |donors| => DonorTypes(Carried(donors[i], bAntigens), Carried(donors[i], drAntigens)))
  }

  /** The per-locus mismatch series of a list of donor types: per donor, how many of its types are not covered. */
  function MismatchSeries(dtypes: seq<DonorTypes>, locus: Locus, recipient: map<string, set<string>>,
                          defaults: map<string, string>): (r: seq<nat>)
    ensures |r| == |dtypes|
    ensures forall i :: 0 <= i < |r| ==>
              r[i] == |set ag | ag in dtypes[i].At(locus) && !Covered(ag, RecipientTypes(recipient, locus), defaults)|
  {
    var r := seq(|dtypes|, i requires 0 <= i < |dtypes| => Mismatches(dtypes[i].At(locus), RecipientTypes(recipient, locus), defaults));
    forall i | 0 <= i < |r|
      ensures r[i] == |set ag | ag in dtypes[i].At(locus) && !Covered(ag, RecipientTypes(recipient, locus), defaults)|
    {
      MismatchesCountUncovered(dtypes[i].At(locus), RecipientTypes(recipient, locus), defaults);
    }
    r
  }

  /** Counting over the two series is counting the donors the rule accepts. */
  lemma {:induction false} SeriesCountIsFavourableDonors(donors: seq<Donor>, bAntigens: seq<string>, drAntigens: seq<string>,
                                                         recipient: map<string, set<string>>, defaults: map<string, string>)
    ensures CountFavourable(MismatchSeries(TypesOf(donors, bAntigens, drAntigens), LocusB, recipient, defaults),
                            MismatchSeries(TypesOf(donors, bAntigens, drAntigens), LocusDR, recipient, defaults))
            == |FavourableDonors(donors, bAntigens, drAntigens, recipient, defaults)|
  {
    if donors != [] {
      SeriesStep(donors, bAntigens, drAntigens, recipient, defaults);
      SeriesCountIsFavourableDonors(donors[1..], bAntigens, drAntigens, recipient, defaults);
    }
  }

  /** The series of a non-empty list: the head judged as the favourable rule judges the first donor, then the tail's series. */
  lemma SeriesStep(donors: seq<Donor>, bAntigens: seq<string>, drAntigens: seq<string>,
                   recipient: map<string, set<string>>, defaults: map<string, string>)
    requires donors != []
    ensures var t := TypesOf(donors, bAntigens, drAntigens);
            var t' := TypesOf(donors[1..], bAntigens, drAntigens);
            var b := MismatchSeries(t, LocusB, recipient, defaults);
            var dr := MismatchSeries(t, LocusDR, recipient, defaults);
            && b[1..] == MismatchSeries(t', LocusB, recipient, defaults)
            && dr[1..] == MismatchSeries(t', LocusDR, recipient, defaults)
            && (IsFavourable(b[0], dr[0]) <==> FavourableDonor(donors[0], bAntigens, drAntigens, recipient, defaults))
  {
    var t := TypesOf(donors, bAntigens, drAntigens);
    var t' := TypesOf(donors[1..], bAntigens, drAntigens);
    assert t[1..] == t';
    assert t[0] == DonorTypes(Carried(donors[0], bAntigens), Carried(donors[0], drAntigens));
  }

  // ---------------------------------------------------------------------------------------------
  // Matchability bands

  /** `(b, v) <= (b', v')` as Python orders tuples: by band key, then by threshold. */
  predicate ItemLe(x: (int, int), y: (int, int)) {
    x.0 < y.0 || (x.0 == y.0 && x.1 <= y.1)
  }

  predicate SortedItems(s: seq<(int, int)>) {
    forall i, j :: 0 <= i < j < |s| ==> ItemLe(s[i], s[j])
  }

  function Insert(x: (int, int), s: seq<(int, int)>): (r: seq<(int, int)>)
    requires SortedItems(s)
    ensures |r| == |s| + 1
    ensures multiset(r) == multiset(s) + multiset{x}
    ensures forall y :: y in r ==> y in s || y == x
    ensures SortedItems(r)
  {
    if s == [] then [x]
    else if ItemLe(x, s[0]) then [x] + s
    else
      assert s == [s[0]] + s[1..];
      var rest := Insert(x, s[1..]);
      InsertAfterHead(x, s, rest);
      [s[0]] + rest
  }

  /** Putting the head of `s` before the insertion into its tail keeps the items sorted. */
  lemma InsertAfterHead(x: (int, int), s: seq<(int, int)>, rest: seq<(int, int)>)
    requires SortedItems(s) && s != [] && !ItemLe(x, s[0])
    requires SortedItems(rest) && forall y :: y in rest ==> y in s[1..] || y == x
    ensures SortedItems([s[0]] + rest)
  {
    forall j | 0 <= j < |rest| ensures ItemLe(s[0], rest[j]) {
      assert rest[j] in rest;
      if rest[j] != x {
        var k :| 0 <= k < |s[1..]| && s[1..][k] == rest[j];
        assert s[k + 1] == rest[j];
      }
    }
    var r := [s[0]] + rest;
    forall i, j | 0 <= i < j < |r| ensures ItemLe(r[i], r[j]) {
      if i > 0 {
        assert r[i] == rest[i - 1] && r[j] == rest[j - 1];
      }
    }
  }

  /** `sorted(bands.items())`: the (band, threshold) items in ascending order. */
  function SortItems(s: seq<(int, int)>): (r: seq<(int, int)>)
    ensures SortedItems(r)
    ensures multiset(r) == multiset(s)
  {
    if s == [] then []
    else
      assert s == [s[0]] + s[1..];
      Insert(s[0], SortItems(s[1..]))
  }

  /** `next(b for b, v in items if fav >= v)` over the items in the given order; None is StopIteration. */
  function FirstQualifying(items: seq<(int, int)>, fav: int): (r: Option<int>)
    ensures r.None? <==> forall i :: 0 <= i < |items| ==> fav < items[i].1
    ensures r.Some? ==> exists i :: 0 <= i < |items| && items[i].0 == r.value && fav >= items[i].1
                                    && forall j :: 0 <= j < i ==> fav < items[j].1
  {
    if items == [] then None
    else if fav >= items[0].1 then Some(items[0].0)
    else
      var r := FirstQualifying(items[1..], fav);
      assert r.Some? ==> exists i :: 1 <= i < |items| && items[i].0 == r.value && fav >= items[i].1
                                     && forall j :: 0 <= j < i ==> fav < items[j].1 by {
        if r.Some? {
          var i :| 0 <= i < |items| - 1 && items[1..][i].0 == r.value && fav >= items[1..][i].1
                   && forall j :: 0 <= j < i ==> fav < items[1..][j].1;
          assert items[i + 1] == items[1..][i];
          forall j | 0 <= j < i + 1 ensures fav < items[j].1 {
            if j > 0 {
              assert items[j] == items[1..][j - 1];
            }
          }
        }
      }
      r
  }

  /**
   * `_calculate_matchability` on one blood group's band table: the smallest band key whose threshold
   * `fav` reaches; None (StopIteration) when no threshold is reached.
   */
  function Matchability(bands: seq<(int, int)>, fav: int): (r: Option<int>)
    ensures r.None? <==> forall i :: 0 <= i < |bands| ==> fav < bands[i].1
    ensures r.Some? ==> exists i :: 0 <= i < |bands| && bands[i].0 == r.value && fav >= bands[i].1
    ensures r.Some? ==> forall i :: 0 <= i < |bands| && bands[i].0 < r.value ==> fav < bands[i].1
  {
    var sorted := SortItems(bands);
    FirstInSortedIsLeast(bands, sorted, fav);
    FirstQualifying(sorted, fav)
  }

  /** Scanning the items in ascending order finds the smallest qualifying band key. */
  lemma FirstInSortedIsLeast(bands: seq<(int, int)>, sorted: seq<(int, int)>, fav: int)
    requires SortedItems(sorted) && multiset(sorted) == multiset(bands)
    ensures FirstQualifying(sorted, fav).None? <==> forall i :: 0 <= i < |bands| ==> fav < bands[i].1
    ensures FirstQualifying(sorted, fav).Some? ==>
              exists i :: 0 <= i < |bands| && bands[i].0 == FirstQualifying(sorted, fav).value && fav >= bands[i].1
    ensures FirstQualifying(sorted, fav).Some? ==>
              forall i :: 0 <= i < |bands| && bands[i].0 < FirstQualifying(sorted, fav).value ==> fav < bands[i].1
  {
    var r := FirstQualifying(sorted, fav);
    NoneQualifyInBoth(bands, sorted, fav);
    if r.Some? {
      var i :| 0 <= i < |sorted| && sorted[i].0 == r.value && fav >= sorted[i].1
               && forall j :: 0 <= j < i ==> fav < sorted[j].1;
      SameItems(sorted, bands);
      assert sorted[i] in sorted;
      assert sorted[i] in bands;
      var n :| 0 <= n < |bands| && bands[n] == sorted[i];
      SmallerKeysDoNotQualify(bands, sorted, fav, i);
    }
  }

  /** No item qualifies in one order exactly when none qualifies in the other. */
  lemma NoneQualifyInBoth(bands: seq<(int, int)>, sorted: seq<(int, int)>, fav: int)
    requires multiset(sorted) == multiset(bands)
    ensures (forall i :: 0 <= i < |sorted| ==> fav < sorted[i].1) <==> (forall i :: 0 <= i < |bands| ==> fav < bands[i].1)
  {
    SameItems(sorted, bands);
    if i :| 0 <= i < |bands| && fav >= bands[i].1 {
      assert bands[i] in bands;
      var k :| 0 <= k < |sorted| && sorted[k] == bands[i];
    }
    if i :| 0 <= i < |sorted| && fav >= sorted[i].1 {
      assert sorted[i] in sorted;
      assert sorted[i] in bands;
      var k :| 0 <= k < |bands| && bands[k] == sorted[i];
    }
  }

  /** Items before the first qualifying one in ascending order include every item with a smaller key. */
  lemma SmallerKeysDoNotQualify(bands: seq<(int, int)>, sorted: seq<(int, int)>, fav: int, i: int)
    requires SortedItems(sorted) && multiset(sorted) == multiset(bands)
    requires 0 <= i < |sorted| && forall j :: 0 <= j < i ==> fav < sorted[j].1
    ensures forall n :: 0 <= n < |bands| && bands[n].0 < sorted[i].0 ==> fav < bands[n].1
  {
    SameItems(sorted, bands);
    forall n | 0 <= n < |bands| && bands[n].0 < sorted[i].0 ensures fav < bands[n].1 {
      assert bands[n] in bands;
      var j :| 0 <= j < |sorted| && sorted[j] == bands[n];
      assert sorted[j].0 < sorted[i].0;
    }
  }

  /** Sequences with the same multiset have the same members, each found at some index. */
  lemma SameItems(sorted: seq<(int, int)>, bands: seq<(int, int)>)
    requires multiset(sorted) == multiset(bands)
    ensures forall x :: x in bands ==> exists k :: 0 <= k < |sorted| && sorted[k] == x
    ensures forall x :: x in sorted ==> x in bands
  {
    forall x | x in bands ensures exists k :: 0 <= k < |sorted| && sorted[k] == x {
      assert multiset(sorted)[x] == multiset(bands)[x];
      assert x in sorted;
    }
    forall x | x in sorted ensures x in bands {
      assert multiset(sorted)[x] == multiset(bands)[x];
    }
  }

  /** Fewer favourable donors never give a smaller band, and never turn an undefined band into a defined one. */
  lemma MatchabilityMonotone(bands: seq<(int, int)>, fewer: int, more: int)
    requires fewer <= more
    ensures Matchability(bands, fewer).Some? ==> Matchability(bands, more).Some?
    ensures Matchability(bands, fewer).Some? ==> Matchability(bands, more).value <= Matchability(bands, fewer).value
  {
  }

  /** The band is determined: a qualifying key below which no band qualifies is the one returned. */
  lemma MatchabilityIsLeast(bands: seq<(int, int)>, fav: int, i: int)
    requires 0 <= i < |bands| && fav >= bands[i].1
    requires forall n :: 0 <= n < |bands| && bands[n].0 < bands[i].0 ==> fav < bands[n].1
    ensures Matchability(bands, fav) == Some(bands[i].0)
  {
    var r := Matchability(bands, fav);
    assert r.Some?;
    var j :| 0 <= j < |bands| && bands[j].0 == r.value && fav >= bands[j].1;
    assert !(bands[i].0 < r.value);
    assert !(bands[j].0 < bands[i].0);
  }

  // ---------------------------------------------------------------------------------------------
  // The calculator object

  /**
   * A `Calculator`: every field is assigned once, by the constructor, and read by the rest, so the
   * fields are constants. Its donors are the blood-group-identical rows of the table it is given.
   */
  class Calculator {
    const abo: string
    const columns: seq<string>
    const donors: seq<Donor>
    const specs: seq<string>
    const hlaBdr: map<string, seq<string>>
    const recipientBdr: map<string, set<string>>
    const compatibleDonors: seq<Donor>
    const incompatibleDonors: seq<Donor>
    const agDefaults: map<string, string>
    const matchabilityBands: map<string, seq<(int, int)>>

    /** The donors are of the recipient's blood group and the split is that of `_get_donors`. */
    predicate Valid() {
      && (compatibleDonors, incompatibleDonors) == SplitDonors(donors, specs)
      && forall d :: d in donors ==> d.bg == abo
    }

    /** `__init__`; selecting the spec columns raises KeyError unless they all are columns. */
    constructor (table: Table, specs: seq<string>, abo: string, recipientBdr: map<string, set<string>>,
                 hlaBdr: map<string, seq<string>>, agDefaults: map<string, string>,
                 matchabilityBands: map<string, seq<(int, int)>>)
      requires Missing(specs, table.columns) == []
      ensures Valid()
      ensures this.abo == abo && this.columns == table.columns && this.donors == SameGroup(table.rows, abo)
      ensures this.specs == specs && this.hlaBdr == hlaBdr && this.recipientBdr == recipientBdr
      ensures this.agDefaults == agDefaults && this.matchabilityBands == matchabilityBands
    {
      var group := SameGroup(table.rows, abo);
      var split := SplitDonors(group, specs);
      this.abo := abo;
      this.columns := table.columns;
      this.donors := group;
      this.specs := specs;
      this.hlaBdr := hlaBdr;
      this.recipientBdr := recipientBdr;
      this.compatibleDonors := split.0;
      this.incompatibleDonors := split.1;
      this.agDefaults := agDefaults;
      this.matchabilityBands := matchabilityBands;
      new;
      assert forall d :: d in group ==> multiset(group)[d] > 0;
    }

    /**
     * `_get_donor_types`: the compatible donors' B and DR types. No compatible donor gives an empty
     * result without looking at `hla_bdr`; otherwise a missing locus or column raises KeyError.
     */
    function GetDonorTypes(): (r: Result<seq<DonorTypes>, CalcError>)
      ensures compatibleDonors == [] ==> r == Ok([])
      ensures r.Ok? ==> |r.value| == |compatibleDonors|
      ensures r.Err? <==> compatibleDonors != [] && !(
                            && "B" in hlaBdr && Missing(hlaBdr["B"], columns) == []
                            && "DR" in hlaBdr && Missing(hlaBdr["DR"], columns) == [])
      ensures r.Ok? && compatibleDonors != [] ==>
                "B" in hlaBdr && "DR" in hlaBdr && r.value == TypesOf(compatibleDonors, hlaBdr["B"], hlaBdr["DR"])
      ensures r.Err? ==> r.error.MissingKey? || r.error.MissingColumns?
    {
      if compatibleDonors == [] then Ok([])
      else if "B" !in hlaBdr then Err(MissingKey("B"))
      else if Missing(hlaBdr["B"], columns) != [] then Err(MissingColumns(Missing(hlaBdr["B"], columns)))
      else if "DR" !in hlaBdr then Err(MissingKey("DR"))
      else if Missing(hlaBdr["DR"], columns) != [] then Err(MissingColumns(Missing(hlaBdr["DR"], columns)))
      else Ok(TypesOf(compatibleDonors, hlaBdr["B"], hlaBdr["DR"]))
    }

    /**
     * `_get_matching`: for each donor, the mismatches at `locus` against the recipient's types at that
     * locus extended with defaults. The extension is a new set: the recipient's own types are unchanged.
     */
    function GetMatching(dtypes: seq<DonorTypes>, locus: Locus): (r: seq<nat>)
      ensures |r| == |dtypes|
      ensures forall i :: 0 <= i < |r| ==>
                r[i] == |set ag | ag in dtypes[i].At(locus) && !Covered(ag, RecipientTypes(recipientBdr, locus), agDefaults)|
      ensures forall i :: 0 <= i < |r| ==> r[i] <= |dtypes[i].At(locus)|
      ensures forall i :: 0 <= i < |r| ==>
                (r[i] == 0 <==> forall ag :: ag in dtypes[i].At(locus) ==> Covered(ag, RecipientTypes(recipientBdr, locus), agDefaults))
    {
      var r := MismatchSeries(dtypes, locus, recipientBdr, agDefaults);
      forall i | 0 <= i < |r|
        ensures r[i] <= |dtypes[i].At(locus)|
        ensures r[i] == 0 <==> forall ag :: ag in dtypes[i].At(locus) ==> Covered(ag, RecipientTypes(recipientBdr, locus), agDefaults)
      {
        MismatchesCountUncovered(dtypes[i].At(locus), RecipientTypes(recipientBdr, locus), agDefaults);
        SubsetCardinality(dtypes[i].At(locus) - RecipientTypes(recipientBdr, locus), dtypes[i].At(locus));
      }
      r
    }

    /**
     * `_get_favourable_count`: None without recipient types; otherwise the number of compatible donors
     * the favourable rule accepts, or the KeyError reading their types raises.
     */
    function GetFavourableCount(): (r: Result<Option<nat>, CalcError>)
      ensures |recipientBdr| == 0 ==> r == Ok(None)
      ensures |recipientBdr| > 0 ==> (r.Err? <==> GetDonorTypes().Err?)
      ensures |recipientBdr| > 0 && GetDonorTypes().Err? ==> r == Err(GetDonorTypes().error)
      ensures r.Ok? && |recipientBdr| > 0 ==>
                r == Ok(Some(|FavourableDonors(compatibleDonors, LocusColumns(hlaBdr, LocusB), LocusColumns(hlaBdr, LocusDR),
                                               recipientBdr, agDefaults)|))
      ensures r.Ok? && |recipientBdr| > 0 ==> r.value.Some? && r.value.value <= |compatibleDonors|
    {
      if |recipientBdr| == 0 then Ok(None)
      else
        match GetDonorTypes()
        case Err(e) => Err(e)
        case Ok(dtypes) =>
          var n := CountFavourable(GetMatching(dtypes, LocusB), GetMatching(dtypes, LocusDR));
          assert n == |FavourableDonors(compatibleDonors, LocusColumns(hlaBdr, LocusB), LocusColumns(hlaBdr, LocusDR),
                                        recipientBdr, agDefaults)| by {
            if compatibleDonors != [] {
              var t := TypesOf(compatibleDonors, hlaBdr["B"], hlaBdr["DR"]);
              assert GetMatching(t, LocusB) == MismatchSeries(t, LocusB, recipientBdr, agDefaults);
              assert GetMatching(t, LocusDR) == MismatchSeries(t, LocusDR, recipientBdr, agDefaults);
              SeriesCountIsFavourableDonors(compatibleDonors, hlaBdr["B"], hlaBdr["DR"], recipientBdr, agDefaults);
            }
          }
          Ok(Some(n))
    }

    /**
     * `_calculate_matchability`: the smallest band key of this blood group's table whose threshold
     * `fav` reaches; KeyError without a table for the group, StopIteration when no threshold is reached.
     */
    function CalculateMatchability(fav: nat): (r: Result<int, CalcError>)
      ensures abo !in matchabilityBands ==> r == Err(MissingKey(abo))
      ensures abo in matchabilityBands ==>
                (r == Err(NoBand(fav)) <==> forall i :: 0 <= i < |matchabilityBands[abo]| ==> fav < matchabilityBands[abo][i].1)
      ensures r.Ok? ==> abo in matchabilityBands && Matchability(matchabilityBands[abo], fav) == Some(r.value)
      ensures abo in matchabilityBands && Matchability(matchabilityBands[abo], fav).Some? ==>
                r == Ok(Matchability(matchabilityBands[abo], fav).value)
    {
      if abo !in matchabilityBands then Err(MissingKey(abo))
      else
        match Matchability(matchabilityBands[abo], fav)
        case None => Err(NoBand(fav))
        case Some(b) => Ok(b)
    }

    /**
     * `calculate`: cRF as incompatible over blood-group-identical donors (ZeroDivisionError when there
     * are none), the compatible count, and the favourable count and band when recipient types are given.
     */
    function Calculate(): (r: Result<Results, CalcError>)
      requires Valid()
      ensures r == Err(NoDonors) <==> donors == []
      ensures donors != [] && |recipientBdr| == 0 ==> r.Ok?
      ensures donors != [] ==>
                (r.Ok? <==> GetFavourableCount().Ok? &&
                            (GetFavourableCount().value.Some? ==> CalculateMatchability(GetFavourableCount().value.value).Ok?))
      ensures donors != [] && GetFavourableCount().Err? ==> r == Err(GetFavourableCount().error)
      ensures donors != [] && GetFavourableCount().Ok? && GetFavourableCount().value.Some? &&
              CalculateMatchability(GetFavourableCount().value.value).Err? ==>
                r == Err(CalculateMatchability(GetFavourableCount().value.value).error)
      ensures r.Ok? ==> r.value.favourable == GetFavourableCount().value
      ensures r.Ok? ==> r.value.crf == Ratio(|incompatibleDonors|, |donors|) && r.value.crf.total > 0
      ensures r.Ok? ==> r.value.available == |compatibleDonors|
      ensures r.Ok? ==> r.value.available + r.value.crf.incompatible == r.value.crf.total
      ensures r.Ok? ==> (r.value.favourable.None? <==> |recipientBdr| == 0)
      ensures r.Ok? ==> (r.value.matchability.None? <==> |recipientBdr| == 0)
      ensures r.Ok? && r.value.favourable.Some? ==> r.value.favourable.value <= r.value.available
      ensures r.Ok? && r.value.matchability.Some? ==>
                r.value.favourable.Some? && CalculateMatchability(r.value.favourable.value) == Ok(r.value.matchability.value)
      ensures r.Ok? && specs == [] ==> r.value.crf.incompatible == 0 && r.value.available == |donors|
    {
      assert |compatibleDonors| + |incompatibleDonors| == |donors| by { SplitPartition(donors, specs); }
      assert specs == [] ==> compatibleDonors == donors && incompatibleDonors == [] by { NoSpecsAllCompatible(donors); }
      var crf := Ratio(|incompatibleDonors|, |donors|);
      if |donors| == 0 then Err(NoDonors)
      else
        match GetFavourableCount()
        case Err(e) => Err(e)
        case Ok(None) => Ok(Results(crf, |compatibleDonors|, None, None))
        case Ok(Some(fav)) =>
          match CalculateMatchability(fav)
          case Err(e) => Err(e)
          case Ok(m) => Ok(Results(crf, |compatibleDonors|, Some(fav), Some(m)))
    }
  }

  /** Only a blood group and no antibodies: cRF 0, every donor available, no favourable count and no band. */
  lemma BloodGroupOnly(c: Calculator)
    requires c.Valid() && c.specs == [] && |c.recipientBdr| == 0 && c.donors != []
    ensures c.Calculate() == Ok(Results(Ratio(0, |c.donors|), |c.donors|, None, None))
  {
  }
}
