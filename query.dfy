/**
 * The filter part of the page: the country filter (an empty selection means
 * no filter), the type options offered for the country-filtered rows, the
 * reset of a type selection that is no longer offered, and the name search,
 * which is only applied from three characters on. The widgets and the
 * session state are not modelled; their values are the `FilterState`.
 */
module Query {
  import opened Wrappers
  import opened Text
  import opened Ordering
  import opened Extraction

  /** The type option that means "no type filter". */
  const All: string := "Alle"

  /** The shortest search text that filters. */
  const MinSearchLength: nat := 3

  /** The rows of `rs` that satisfy `p`, in their order (a boolean mask on a frame). */
  function Filter(p: Record -> bool, rs: seq<Record>): (r: seq<Record>)
    ensures |r| <= |rs|
    ensures forall x :: x in r <==> x in rs && p(x)
  {
    if rs == [] then []
    else
      assert forall x :: x in rs <==> x == rs[0] || x in rs[1..] by {
        assert rs == [rs[0]] + rs[1..];
      }
      (if p(rs[0]) then [rs[0]] else []) + Filter(p, rs[1..])
  }

  /** `a` is `b` with some elements left out, the rest in the same order. */
  predicate IsSubsequence(a: seq<Record>, b: seq<Record>)
  {
    if a == [] then true
    else if b == [] then false
    else (a[0] == b[0] && IsSubsequence(a[1..], b[1..])) || IsSubsequence(a, b[1..])
  }

  function Countries(rs: seq<Record>): (r: seq<string>)
    ensures |r| == |rs| && forall i :: 0 <= i < |rs| ==> r[i] == rs[i].country
  {
    seq(|rs|, i requires 0 <= i < |rs| => rs[i].country)
  }

  function Types(rs: seq<Record>): (r: seq<string>)
    ensures |r| == |rs| && forall i :: 0 <= i < |rs| ==> r[i] == rs[i].subjectType
  {
    seq(|rs|, i requires 0 <= i < |rs| => rs[i].subjectType)
  }

  /** The countries offered for selection: the sorted distinct countries of all rows. */
  function CountryOptions(rs: seq<Record>): seq<string>
  {
    SortedDistinct(Countries(rs))
  }

  /** The rows of the selected countries, or all rows when none is selected. */
  function CountryFilter(rs: seq<Record>, countries: seq<string>): seq<Record>
  {
    if countries == [] then rs else Filter((r: Record) => r.country in countries, rs)
  }

  /** The rows of the given type, or all rows for "Alle". */
  function TypeFilter(rs: seq<Record>, t: string): seq<Record>
  {
    if t == All then rs else Filter((r: Record) => r.subjectType == t, rs)
  }

  /** The rows whose name contains the search text, ignoring case, once the text is long enough. */
  function NameSearch(rs: seq<Record>, search: string): seq<Record>
  {
    if |search| >= MinSearchLength then Filter((r: Record) => ContainsCaseless(r.name, search), rs) else rs
  }

  /** "Alle" followed by the sorted distinct types of the country-filtered rows. */
  function TypeOptions(rs: seq<Record>, countries: seq<string>): seq<string>
  {
    [All] + SortedDistinct(Types(CountryFilter(rs, countries)))
  }

  function MissingTypeWarning(t: string): string
  {
    "Keine «" + t + "» im gewählten Land verfügbar."
  }

  /** The type the filter uses and the warning shown when the selection had to be reset. */
  datatype TypeChoice = TypeChoice(active: string, warning: Option<string>)

  function ChooseType(selected: string, options: seq<string>): TypeChoice
  {
    if selected in options then TypeChoice(selected, None)
    else TypeChoice(All, Some(MissingTypeWarning(selected)))
  }

  /** The selection the page holds: countries, type and search text. */
  datatype FilterState = FilterState(countries: seq<string>, selectedType: string, search: string)

  /** What the page shows for a selection. */
  datatype View = View(typeOptions: seq<string>, activeType: string, warning: Option<string>,
                       advisory: bool, rows: seq<Record>)

  /** The page body: options, type reset, then country, type and name filters in that order. */
  function Apply(rs: seq<Record>, st: FilterState): View
  {
    var options := TypeOptions(rs, st.countries);
    var choice := ChooseType(st.selectedType, options);
    var rows := NameSearch(TypeFilter(CountryFilter(rs, st.countries), choice.active), st.search);
    View(options, choice.active, choice.warning, 0 < |st.search| < MinSearchLength, rows)
  }

  /** A row passes every filter that the selection makes active. */
  predicate Selected(r: Record, countries: seq<string>, activeType: string, search: string)
  {
    && (countries == [] || r.country in countries)
    && (activeType == All || r.subjectType == activeType)
    && (|search| < MinSearchLength || ContainsCaseless(r.name, search))
  }

  // ---------------------------------------------------------------------
  // Filtering narrows

  lemma {:induction false} FilterSubsequence(p: Record -> bool, rs: seq<Record>)
    ensures IsSubsequence(Filter(p, rs), rs)
  {
    if rs != [] {
      FilterSubsequence(p, rs[1..]);
      var f := Filter(p, rs[1..]);
      if p(rs[0]) {
        assert Filter(p, rs) == [rs[0]] + f;
        assert ([rs[0]] + f)[1..] == f;
      } else {
        assert Filter(p, rs) == f;
        if f != [] {
          assert IsSubsequence(f, rs[1..]);
        }
      }
    }
  }

  /** A filter that every row passes returns the rows unchanged. */
  lemma {:induction false} FilterKeepsAll(p: Record -> bool, rs: seq<Record>)
    requires forall x :: x in rs ==> p(x)
    ensures Filter(p, rs) == rs
  {
    if rs != [] {
      assert rs[0] in rs;
      assert forall x :: x in rs[1..] ==> x in rs;
      FilterKeepsAll(p, rs[1..]);
      assert rs == [rs[0]] + rs[1..];
    }
  }

  /** Filtering twice with the same condition is filtering once. */
  lemma FilterIdempotent(p: Record -> bool, rs: seq<Record>)
    ensures Filter(p, Filter(p, rs)) == Filter(p, rs)
  {
    FilterKeepsAll(p, Filter(p, rs));
  }

  /** Two filters one after the other are one filter on the conjunction. */
  lemma {:induction false} FilterThenFilter(p: Record -> bool, q: Record -> bool, pq: Record -> bool, rs: seq<Record>)
    requires forall x :: pq(x) == (p(x) && q(x))
    ensures Filter(q, Filter(p, rs)) == Filter(pq, rs)
  {
    if rs != [] {
      FilterThenFilter(p, q, pq, rs[1..]);
      var head := if p(rs[0]) then [rs[0]] else [];
      var tail := Filter(p, rs[1..]);
      assert Filter(p, rs) == head + tail;
      FilterAppend(q, head, tail);
    }
  }

  lemma {:induction false} FilterAppend(p: Record -> bool, a: seq<Record>, b: seq<Record>)
    ensures Filter(p, a + b) == Filter(p, a) + Filter(p, b)
  {
    if a != [] {
      FilterAppend(p, a[1..], b);
      assert (a + b)[0] == a[0];
      assert (a + b)[1..] == a[1..] + b;
    } else {
      assert a + b == b;
    }
  }

  // ---------------------------------------------------------------------
  // Type options and the reset

  lemma TypesMembers(rs: seq<Record>)
    ensures forall t :: t in Types(rs) <==> exists r :: r in rs && r.subjectType == t
  {
    forall t ensures t in Types(rs) <==> exists r :: r in rs && r.subjectType == t {
      if t in Types(rs) {
        var i :| 0 <= i < |rs| && Types(rs)[i] == t;
        assert rs[i] in rs;
      }
      if exists r :: r in rs && r.subjectType == t {
        var r :| r in rs && r.subjectType == t;
        var i :| 0 <= i < |rs| && rs[i] == r;
        assert Types(rs)[i] == t;
      }
    }
  }

  /** The country options are sorted, without repetition, and are exactly the countries of the rows. */
  lemma CountryOptionsRule(rs: seq<Record>)
    ensures StrictlySorted(CountryOptions(rs))
    ensures forall c :: c in CountryOptions(rs) <==> exists r :: r in rs && r.country == c
  {
    forall c ensures c in Countries(rs) <==> exists r :: r in rs && r.country == c {
      if c in Countries(rs) {
        var i :| 0 <= i < |rs| && Countries(rs)[i] == c;
        assert rs[i] in rs;
      }
      if exists r :: r in rs && r.country == c {
        var r :| r in rs && r.country == c;
        var i :| 0 <= i < |rs| && rs[i] == r;
        assert Countries(rs)[i] == c;
      }
    }
  }

  /**
   * The options are "Alle" and then, sorted and without repetition, exactly
   * the types that occur among the rows of the selected countries (among all
   * rows when no country is selected).
   */
  lemma TypeOptionsRule(rs: seq<Record>, countries: seq<string>)
    ensures TypeOptions(rs, countries)[0] == All
    ensures StrictlySorted(TypeOptions(rs, countries)[1..])
    ensures forall t :: t in TypeOptions(rs, countries)[1..] <==>
      exists r :: r in rs && (countries == [] || r.country in countries) && r.subjectType == t
  {
    var sub := CountryFilter(rs, countries);
    TypesMembers(sub);
    assert TypeOptions(rs, countries)[1..] == SortedDistinct(Types(sub));
  }

  /**
   * A selected type that is still offered is kept with no warning; one that
   * is not is replaced by "Alle" and produces the warning naming it. The
   * type in force is always one of the options when they start with "Alle".
   */
  lemma ChooseTypeRule(selected: string, options: seq<string>)
    requires options != [] && options[0] == All
    ensures ChooseType(selected, options).active in options
    ensures ChooseType(selected, options).warning.Some? <==> selected !in options
    ensures selected in options ==> ChooseType(selected, options).active == selected
    ensures selected !in options ==>
      ChooseType(selected, options) == TypeChoice(All, Some(MissingTypeWarning(selected)))
  {
  }

  // ---------------------------------------------------------------------
  // The rows shown

  /** `Selected` as a row condition. */
  function SelectedBy(countries: seq<string>, activeType: string, search: string): Record -> bool
  {
    (r: Record) => Selected(r, countries, activeType, search)
  }

  /** Filtering depends only on which rows a condition accepts. */
  lemma {:induction false} FilterExt(p: Record -> bool, q: Record -> bool, rs: seq<Record>)
    requires forall x :: p(x) == q(x)
    ensures Filter(p, rs) == Filter(q, rs)
  {
    if rs != [] {
      FilterExt(p, q, rs[1..]);
    }
  }

  lemma CountryStep(rs: seq<Record>, cs: seq<string>)
    ensures CountryFilter(rs, cs) == Filter((r: Record) => cs == [] || r.country in cs, rs)
  {
    var c := (r: Record) => cs == [] || r.country in cs;
    if cs == [] {
      FilterKeepsAll(c, rs);
    } else {
      FilterExt((r: Record) => r.country in cs, c, rs);
    }
  }

  lemma TypeStep(rs: seq<Record>, cs: seq<string>, t: string)
    ensures TypeFilter(CountryFilter(rs, cs), t)
            == Filter((r: Record) => (cs == [] || r.country in cs) && (t == All || r.subjectType == t), rs)
  {
    var c := (r: Record) => cs == [] || r.country in cs;
    var p := (r: Record) => t == All || r.subjectType == t;
    var cp := (r: Record) => (cs == [] || r.country in cs) && (t == All || r.subjectType == t);
    CountryStep(rs, cs);
    if t == All {
      FilterKeepsAll(p, Filter(c, rs));
    } else {
      FilterExt((r: Record) => r.subjectType == t, p, Filter(c, rs));
    }
    FilterThenFilter(c, p, cp, rs);
  }

  lemma SearchStep(rs: seq<Record>, cs: seq<string>, t: string, s: string)
    ensures NameSearch(TypeFilter(CountryFilter(rs, cs), t), s) == Filter(SelectedBy(cs, t, s), rs)
  {
    var cp := (r: Record) => (cs == [] || r.country in cs) && (t == All || r.subjectType == t);
    var q := (r: Record) => |s| < MinSearchLength || ContainsCaseless(r.name, s);
    TypeStep(rs, cs, t);
    if |s| < MinSearchLength {
      FilterKeepsAll(q, Filter(cp, rs));
    } else {
      FilterExt((r: Record) => ContainsCaseless(r.name, s), q, Filter(cp, rs));
    }
    FilterThenFilter(cp, q, SelectedBy(cs, t, s), rs);
  }

  /**
   * The rows shown are the rows of the table that pass every active filter,
   * in table order: exactly one filter on the conjunction, hence a
   * subsequence of the table.
   */
  lemma ApplyRows(rs: seq<Record>, st: FilterState)
    ensures Apply(rs, st).rows == Filter(SelectedBy(st.countries, Apply(rs, st).activeType, st.search), rs)
    ensures IsSubsequence(Apply(rs, st).rows, rs)
    ensures forall x :: x in Apply(rs, st).rows <==>
      x in rs && Selected(x, st.countries, Apply(rs, st).activeType, st.search)
  {
    var f := SelectedBy(st.countries, Apply(rs, st).activeType, st.search);
    SearchStep(rs, st.countries, Apply(rs, st).activeType, st.search);
    FilterSubsequence(f, rs);
  }

  /**
   * A search text of one or two characters filters nothing and only raises
   * the advisory; the empty text does neither.
   */
  lemma ShortSearchInert(rs: seq<Record>, st: FilterState)
    requires |st.search| < MinSearchLength
    ensures Apply(rs, st).rows == Apply(rs, st.(search := "")).rows
    ensures Apply(rs, st).advisory <==> st.search != ""
  {
  }

  /**
   * Applying the same selection to the rows it produced gives the same rows:
   * the country and name filters pass every row again, and the type in force
   * either stays the selected type or was already "Alle".
   */
  lemma ApplyRowsIdempotent(rs: seq<Record>, st: FilterState)
    ensures Apply(Apply(rs, st).rows, st).rows == Apply(rs, st).rows
  {
    var v1 := Apply(rs, st);
    var rows1 := v1.rows;
    var v2 := Apply(rows1, st);
    var cs, s := st.countries, st.search;
    ApplyRows(rs, st);
    ApplyRows(rows1, st);
    TypeOptionsRule(rs, cs);
    TypeOptionsRule(rows1, cs);
    // the options offered for the narrowed rows are among those offered before
    forall t | t in v2.typeOptions ensures t in v1.typeOptions {
      if t != All {
        assert v2.typeOptions == [All] + v2.typeOptions[1..];
        assert t in v2.typeOptions[1..];
        var r :| r in rows1 && (cs == [] || r.country in cs) && r.subjectType == t;
        assert v1.typeOptions == [All] + v1.typeOptions[1..];
      }
    }
    forall x | x in rows1 ensures Selected(x, cs, v2.activeType, s) {
      if v2.activeType != All {
        assert st.selectedType in v2.typeOptions && v2.activeType == st.selectedType;
        assert st.selectedType in v1.typeOptions;
      }
    }
    FilterKeepsAll(SelectedBy(cs, v2.activeType, s), rows1);
  }
}
