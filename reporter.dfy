/**
 * The result shaping of the report generator (reporter.js): the hero shot
 * and its normalised path, the grouping of results by category, and the
 * card class, badge, text and diff overlay chosen for each section and
 * card. The HTML text around these values is not modelled.
 */
module Reporter {
  import opened Wrappers
  import opened Text
  import opened Audition
  import opened PropertyOrder

  // ---------------------------------------------------------------------
  // Hero shot

  predicate IsDesktop(r: TestResult) {
    Includes(r.category, "Desktop")
  }

  /** `results.find(r => r.category.includes('Desktop'))`, as an index. */
  function FindDesktop(results: seq<TestResult>): (k: Option<nat>)
    ensures k.Some? ==> k.value < |results| && IsDesktop(results[k.value])
    ensures k.Some? ==> forall j :: 0 <= j < k.value ==> !IsDesktop(results[j])
    ensures k.None? ==> forall j :: 0 <= j < |results| ==> !IsDesktop(results[j])
  {
    if results == [] then None
    else if IsDesktop(results[0]) then Some(0)
    else
      assert forall j :: 1 <= j < |results| ==> results[1..][j - 1] == results[j];
      match FindDesktop(results[1..])
      case None => None
      case Some(k) => Some(k + 1)
  }

  /**
   * `heroShot`: the first result whose category contains `Desktop`, else the
   * first result, and none for an empty list.
   */
  function HeroIndex(results: seq<TestResult>): (k: Option<nat>)
    ensures k.None? <==> results == []
    ensures k.Some? ==> k.value < |results|
    ensures k.Some? && IsDesktop(results[k.value]) ==>
              forall j :: 0 <= j < k.value ==> !IsDesktop(results[j])
    ensures k.Some? && !IsDesktop(results[k.value]) ==>
              k.value == 0 && forall j :: 0 <= j < |results| ==> !IsDesktop(results[j])
  {
    match FindDesktop(results)
    case Some(k) => Some(k)
    case None => if results == [] then None else Some(0)
  }

  /** `heroPath`: the hero's current path with every backslash turned into a slash, or `''`. */
  function HeroPath(results: seq<TestResult>): (path: string)
    ensures results == [] ==> path == ""
    ensures results != [] ==>
              var hero := results[HeroIndex(results).value].currentPath;
              |path| == |hero| && forall i :: 0 <= i < |hero| ==> path[i] == Forward(hero[i])
    ensures '\\' !in path
  {
    match HeroIndex(results)
    case Some(k) => Slashes(results[k].currentPath)
    case None => ""
  }

  /**
   * A path built with either separator normalises to the path built with
   * `/`: on Windows `path.join` gives backslashes, which the hero path turns
   * back into slashes.
   */
  lemma NormalisedArtifactPath(sep: char, folder: Folder, name: string)
    requires sep == '/' || sep == '\\'
    ensures Slashes(ArtifactPath(sep, folder, name)) == ArtifactPath('/', folder, Slashes(name))
  {
    assert '\\' !in "screentest" && '\\' !in folder.Name() && '\\' !in ".png";
    SlashesJoin("screentest", sep, folder.Name(), name, ".png");
  }

  lemma SlashesJoin(root: string, sep: char, dir: string, name: string, ext: string)
    requires sep == '/' || sep == '\\'
    requires '\\' !in root && '\\' !in dir && '\\' !in ext
    ensures Slashes(root + [sep] + dir + [sep] + name + ext) == root + ['/'] + dir + ['/'] + Slashes(name) + ext
  {
    SlashesAppend(root + [sep] + dir + [sep] + name, ext);
    SlashesAppend(root + [sep] + dir + [sep], name);
    SlashesAppend(root + [sep] + dir, [sep]);
    SlashesAppend(root + [sep], dir);
    SlashesAppend(root, [sep]);
    SlashesKeepsPlain(root);
    SlashesKeepsPlain(dir);
    SlashesKeepsPlain(ext);
    assert Slashes([sep]) == ['/'];
  }

  // ---------------------------------------------------------------------
  // Section style and badge

  /** The icon and card class of one category section. */
  datatype SectionStyle = SectionStyle(icon: string, cardClass: string)

  /**
   * The `icon`/`cardClass` choice in `generateLayout`: desktop by default,
   * mobile when the category contains `Mobile`, tablet when it contains
   * `Tablet`; that test runs last and wins.
   */
  function StyleFor(category: string): (st: SectionStyle)
    ensures st.cardClass == "tablet-card" <==> Includes(category, "Tablet")
    ensures st.cardClass == "mobile-card" <==> Includes(category, "Mobile") && !Includes(category, "Tablet")
    ensures st.cardClass == "desktop-card" <==> !Includes(category, "Mobile") && !Includes(category, "Tablet")
    ensures st in {SectionStyle("fa-desktop", "desktop-card"), SectionStyle("fa-mobile-screen", "mobile-card"),
                   SectionStyle("fa-tablet-screen-button", "tablet-card")}
  {
    var st := SectionStyle("fa-desktop", "desktop-card");
    var st := if Includes(category, "Mobile") then SectionStyle("fa-mobile-screen", "mobile-card") else st;
    if Includes(category, "Tablet") then SectionStyle("fa-tablet-screen-button", "tablet-card") else st
  }

  /** The badge class and text, the statistic line and the diff overlay source of one card. */
  datatype Badge = Badge(badgeClass: string, badgeText: string, diffText: string, diffImage: Option<string>)

  const DiffSuffix := "% Difference (Hover to see)"

  /**
   * The badge of one card in `generateLayout`: passing unless the status
   * string is `Mismatch` (a regression, with the diff overlay) or
   * `Baseline Created` (a new baseline).
   */
  function BadgeFor(shot: TestResult): (b: Badge)
    ensures b.badgeClass == "status-mismatch" <==> shot.status == Mismatch
    ensures b.badgeClass == "status-new" <==> shot.status == BaselineCreated
    ensures b.badgeClass == "status-match" <==> shot.status != Mismatch && shot.status != BaselineCreated
    ensures b.badgeText == (if shot.status == Mismatch then "Regression"
                            else if shot.status == BaselineCreated then "New Baseline" else "Passing")
    ensures shot.status == BaselineCreated ==> b.diffText == "Reference saved"
    ensures shot.status != Mismatch && shot.status != BaselineCreated ==> b.diffText == "Pixel Perfect"
    ensures b.diffImage.Some? <==> shot.status == Mismatch
    ensures b.diffImage.Some? ==> b.diffImage.value == shot.diffPath
  {
    var b := Badge("status-match", "Passing", "Pixel Perfect", None);
    if shot.status.Label() == "Mismatch" then
      Badge("status-mismatch", "Regression", FixedTwo(shot.mismatch) + DiffSuffix, Some(shot.diffPath))
    else if shot.status.Label() == "Baseline Created" then
      Badge("status-new", "New Baseline", "Reference saved", None)
    else
      b
  }

  /** A regression card's statistic spells the mismatch percentage with two decimals. */
  lemma MismatchTextSpellsPercentage(shot: TestResult)
    requires shot.status == Mismatch
    ensures var t := BadgeFor(shot).diffText;
      var n := |t| - |DiffSuffix|;
      && 4 <= n
      && t[n..] == DiffSuffix
      && t[n - 3] == '.' && AllDigits(t[..n - 3]) && AllDigits(t[n - 2..n])
      && FixedTwoValue(t[..n]) == shot.mismatch
      && (t[0] != '0' || n == 4)
  {
    var f := FixedTwo(shot.mismatch);
    var t := f + DiffSuffix;
    assert t[..|f|] == f && t[|f|..] == DiffSuffix && t[0] == f[0];
    assert |t| - |DiffSuffix| == |f|;
    assert f[0] == NatToString(shot.mismatch / 100)[0];
    assert |f| == |NatToString(shot.mismatch / 100)| + 3;
    FixedTwoRoundTrip(shot.mismatch);
  }

  /** One card: the actor, the crisp image it shows, and its badge. */
  datatype Card = Card(actor: string, image: string, badge: Badge)

  function CardFor(shot: TestResult): Card {
    Card(shot.actor, shot.currentPath, BadgeFor(shot))
  }

  /** One category section with its cards. */
  datatype Section = Section(category: string, style: SectionStyle, cards: seq<Card>)

  // ---------------------------------------------------------------------
  // Grouping: the specification

  /** The results of category `c`, in input order. */
  function Filter(results: seq<TestResult>, c: string): seq<TestResult>
    decreases |results|
  {
    if results == [] then []
    else
      var n := |results| - 1;
      Filter(results[..n], c) + (if results[n].category == c then [results[n]] else [])
  }

  /** The indices of the results of category `c`, ascending. */
  function Positions(results: seq<TestResult>, c: string): seq<nat>
    decreases |results|
  {
    if results == [] then []
    else
      var n := |results| - 1;
      Positions(results[..n], c) + (if results[n].category == c then [n] else [])
  }

  /** The distinct categories, in order of first appearance. */
  function Categories(results: seq<TestResult>): seq<string>
    decreases |results|
  {
    if results == [] then []
    else
      var n := |results| - 1;
      var cs := Categories(results[..n]);
      if results[n].category in cs then cs else cs + [results[n].category]
  }

  /** The index of the first result of category `c`, or `|results|` when there is none. */
  function FirstIndex(results: seq<TestResult>, c: string): nat {
    if results == [] then 0
    else if results[0].category == c then 0
    else 1 + FirstIndex(results[1..], c)
  }

  predicate Distinct<T(==)>(s: seq<T>) {
    forall i, j :: 0 <= i < j < |s| ==> s[i] != s[j]
  }

  /** The lists of the given categories, one after the other. */
  function Flatten(results: seq<TestResult>, keys: seq<string>): seq<TestResult> {
    if keys == [] then [] else Filter(results, keys[0]) + Flatten(results, keys[1..])
  }

  // ---------------------------------------------------------------------
  // Grouping: the object built in place

  /** The `categories` object: its own keys in creation order and the array under each. */
  class CategoryTable {
    var created: seq<string>
    var lists: map<string, seq<TestResult>>

    ghost predicate Valid()
      reads this
    {
      && (forall c :: c in lists <==> c in created)
      && Distinct(created)
    }

    /** `const categories = {}` */
    constructor ()
      ensures Valid() && created == [] && lists == map[]
    {
      created := [];
      lists := map[];
    }

    /**
     * The `forEach` callback: create the category's array on first sight,
     * then push the result. The test is on own keys only (see `RecordAsWritten`).
     */
    method Record(r: TestResult)
      requires Valid()
      modifies this
      ensures Valid()
      ensures lists == Recorded(old(lists), r)
      ensures created == if r.category in old(lists) then old(created) else old(created) + [r.category]
    {
      if r.category !in lists {
        lists := lists[r.category := []];
        created := created + [r.category];
      }
      lists := lists[r.category := lists[r.category] + [r]];
    }

    /** `Object.keys(categories)`: every category that has an array, and nothing else. */
    function Keys(): (keys: seq<string>)
      requires Valid()
      reads this
      ensures forall c :: c in keys <==> c in lists
    {
      var keys := OwnKeys(created);
      assert forall c :: c in keys <==> c in multiset(created);
      keys
    }
  }

  /** The arrays after one corrected callback step. */
  function Recorded(lists: map<string, seq<TestResult>>, r: TestResult): (m: map<string, seq<TestResult>>)
    ensures m.Keys == lists.Keys + {r.category}
    ensures m[r.category] == (if r.category in lists then lists[r.category] else []) + [r]
    ensures forall c :: c in lists && c != r.category ==> m[c] == lists[c]
  {
    if r.category in lists then lists[r.category := lists[r.category] + [r]] else lists[r.category := [r]]
  }

  /** The `forEach` in `generateLayout` that groups the results by category, then `Object.keys`. */
  method GroupByCategory(results: seq<TestResult>) returns (keys: seq<string>, groups: map<string, seq<TestResult>>)
    ensures keys == OwnKeys(Categories(results))
    ensures forall c :: c in groups <==> c in Categories(results)
    ensures forall c :: c in groups ==> groups[c] == Filter(results, c)
  {
    var table := new CategoryTable();
    for i := 0 to |results|
      invariant table.Valid()
      invariant table.created == Categories(results[..i])
      invariant forall c :: c in table.lists ==> table.lists[c] == Filter(results[..i], c)
    {
      assert results[..i + 1][..i] == results[..i];
      if results[i].category !in table.lists {
        FilterAbsent(results[..i], results[i].category);
      }
      table.Record(results[i]);
    }
    assert results[..|results|] == results;
    keys := table.Keys();
    groups := table.lists;
  }

  /** The cards of one section, in list order. */
  function Cards(shots: seq<TestResult>): seq<Card> {
    seq(|shots|, j requires 0 <= j < |shots| => CardFor(shots[j]))
  }

  /** `generateLayout`: one section per key of `Object.keys` order, with its style and its cards. */
  ghost predicate IsLayout(results: seq<TestResult>, sections: seq<Section>) {
    var keys := OwnKeys(Categories(results));
    && |sections| == |keys|
    && forall i :: 0 <= i < |sections| ==>
         sections[i] == Section(keys[i], StyleFor(keys[i]), Cards(Filter(results, keys[i])))
  }

  method GenerateLayout(results: seq<TestResult>) returns (sections: seq<Section>)
    ensures IsLayout(results, sections)
  {
    var keys, groups := GroupByCategory(results);
    KeysAreGroups(results, keys, groups);
    sections := seq(|keys|, i requires 0 <= i < |keys| => Section(keys[i], StyleFor(keys[i]), Cards(groups[keys[i]])));
  }

  /** Every key `Object.keys` lists names a group, and that group is the key's results. */
  lemma KeysAreGroups(results: seq<TestResult>, keys: seq<string>, groups: map<string, seq<TestResult>>)
    requires keys == OwnKeys(Categories(results))
    requires forall c :: c in groups <==> c in Categories(results)
    requires forall c :: c in groups ==> groups[c] == Filter(results, c)
    ensures forall i :: 0 <= i < |keys| ==> keys[i] in groups && groups[keys[i]] == Filter(results, keys[i])
  {
    forall i | 0 <= i < |keys| ensures keys[i] in groups {
      assert keys[i] in multiset(keys);
    }
  }

  /** What the report shows: the hero background and the sections. */
  datatype Report = Report(heroPath: string, sections: seq<Section>)

  /** `generateReport` without the HTML text, the file write and the browser launch. */
  method GenerateReport(results: seq<TestResult>) returns (report: Report)
    ensures report.heroPath == HeroPath(results)
    ensures IsLayout(results, report.sections)
  {
    var heroPath := HeroPath(results);
    var sections := GenerateLayout(results);
    report := Report(heroPath, sections);
  }

  // ---------------------------------------------------------------------
  // Grouping: the properties

  /** A category that never appears has an empty list. */
  lemma {:induction false} FilterAbsent(results: seq<TestResult>, c: string)
    requires c !in Categories(results)
    ensures Filter(results, c) == []
    decreases |results|
  {
    if results != [] {
      var n := |results| - 1;
      FilterAbsent(results[..n], c);
    }
  }

  /** Each category appears once, and exactly the categories of the results appear. */
  lemma {:induction false} CategoriesExact(results: seq<TestResult>)
    ensures Distinct(Categories(results))
    ensures forall c :: c in Categories(results) <==> exists k :: 0 <= k < |results| && results[k].category == c
    decreases |results|
  {
    if results != [] {
      var n := |results| - 1;
      CategoriesExact(results[..n]);
      forall c ensures c in Categories(results) <==> exists k :: 0 <= k < |results| && results[k].category == c {
        if c in Categories(results[..n]) {
          var k :| 0 <= k < n && results[..n][k].category == c;
          assert results[k].category == c;
        }
        if k :| 0 <= k < |results| && results[k].category == c {
          if k < n {
            assert results[..n][k].category == c;
          }
        }
      }
    }
  }

  /** A result is in the list of category `c` exactly when it is one of the results and has category `c`. */
  lemma {:induction false} FilterMembers(results: seq<TestResult>, c: string)
    ensures forall r :: r in Filter(results, c) <==> r in results && r.category == c
    decreases |results|
  {
    if results != [] {
      var n := |results| - 1;
      FilterMembers(results[..n], c);
      assert results == results[..n] + [results[n]];
    }
  }

  /** Each list is the results of its category, taken at ascending input positions: relative order is kept. */
  lemma {:induction false} FilterKeepsOrder(results: seq<TestResult>, c: string)
    ensures var f, p := Filter(results, c), Positions(results, c);
      && |p| == |f|
      && (forall m :: 0 <= m < |p| ==> p[m] < |results| && results[p[m]] == f[m])
      && (forall m, m' :: 0 <= m < m' < |p| ==> p[m] < p[m'])
      && (forall k :: 0 <= k < |results| && results[k].category == c ==> k in p)
    decreases |results|
  {
    if results != [] {
      var n := |results| - 1;
      FilterKeepsOrder(results[..n], c);
      var f, p := Filter(results, c), Positions(results, c);
      var f0, p0 := Filter(results[..n], c), Positions(results[..n], c);
      assert forall m :: 0 <= m < |p0| ==> p[m] == p0[m] && f[m] == f0[m] && results[p0[m]] == results[..n][p0[m]];
    }
  }

  /** Adding one result to the end puts it at the end of its category's list and leaves the others alone. */
  lemma FlattenSnoc(results: seq<TestResult>, r: TestResult, keys: seq<string>)
    requires Distinct(keys)
    ensures multiset(Flatten(results + [r], keys)) ==
            multiset(Flatten(results, keys)) + (if r.category in keys then multiset{r} else multiset{})
    decreases |keys|
  {
    if keys != [] {
      var rs := results + [r];
      assert rs[..|rs| - 1] == results;
      FlattenSnoc(results, r, keys[1..]);
    }
  }

  /** Taken in order of first appearance, the lists hold every result once: a permutation. */
  lemma {:induction false} CategoriesPermute(results: seq<TestResult>)
    ensures multiset(Flatten(results, Categories(results))) == multiset(results)
    decreases |results|
  {
    CategoriesExact(results);
    if results != [] {
      var n := |results| - 1;
      var before, r := results[..n], results[n];
      assert results == before + [r];
      CategoriesPermute(before);
      CategoriesExact(before);
      var cs := Categories(before);
      if r.category in cs {
        FlattenSnoc(before, r, cs);
      } else {
        FlattenSnoc(before, r, cs);
        FlattenAppend(results, cs, [r.category]);
        FilterAbsent(before, r.category);
        assert Filter(results, r.category) == [r];
      }
    }
  }

  lemma {:induction false} FlattenAppend(results: seq<TestResult>, k1: seq<string>, k2: seq<string>)
    ensures Flatten(results, k1 + k2) == Flatten(results, k1) + Flatten(results, k2)
    decreases |k1|
  {
    if k1 != [] {
      assert (k1 + k2)[0] == k1[0] && (k1 + k2)[1..] == k1[1..] + k2;
      FlattenAppend(results, k1[1..], k2);
    } else {
      assert k1 + k2 == k2;
    }
  }

  /** Taking one element out of a sequence takes it out of its multiset. */
  lemma RemoveOne<T>(s: seq<T>, j: nat)
    requires j < |s|
    ensures s == s[..j] + [s[j]] + s[j + 1..]
    ensures multiset(s) == multiset(s[..j] + s[j + 1..]) + multiset{s[j]}
  {
    assert s == s[..j] + [s[j]] + s[j + 1..];
  }

  lemma MultisetCancel<T>(a: seq<T>, b: seq<T>, x: T)
    requires multiset(a) + multiset{x} == multiset(b) + multiset{x}
    ensures multiset(a) == multiset(b)
  {
    forall y ensures multiset(a)[y] == multiset(b)[y] {
      assert (multiset(a) + multiset{x})[y] == (multiset(b) + multiset{x})[y];
    }
  }

  /** A key in the middle contributes its list; the rest flatten as if it were not there. */
  lemma FlattenSplit(results: seq<TestResult>, left: seq<string>, c: string, right: seq<string>)
    ensures multiset(Flatten(results, left + [c] + right)) ==
            multiset(Filter(results, c)) + multiset(Flatten(results, left + right))
  {
    assert left + [c] + right == left + ([c] + right);
    FlattenAppend(results, left, [c] + right);
    FlattenAppend(results, left, right);
    assert ([c] + right)[1..] == right;
  }

  /** Flattening along any ordering of the same keys gives the same results, counted the same. */
  lemma {:induction false} FlattenReorder(results: seq<TestResult>, k1: seq<string>, k2: seq<string>)
    requires multiset(k1) == multiset(k2)
    ensures multiset(Flatten(results, k1)) == multiset(Flatten(results, k2))
    decreases |k1|
  {
    if k1 == [] {
      assert |k2| == |multiset(k2)| == |multiset(k1)| == 0;
    } else {
      var c := k1[0];
      assert c in multiset(k2);
      var j :| 0 <= j < |k2| && k2[j] == c;
      var left, right := k2[..j], k2[j + 1..];
      RemoveOne(k2, j);
      RemoveOne(k1, 0);
      assert k1[..0] + k1[1..] == k1[1..];
      MultisetCancel(k1[1..], left + right, c);
      FlattenReorder(results, k1[1..], left + right);
      FlattenSplit(results, left, c, right);
    }
  }

  /**
   * The sections, in `Object.keys` order, hold every result exactly once:
   * their lists together are a permutation of the input, so the total count
   * is the input's.
   */
  lemma GroupingPermutes(results: seq<TestResult>)
    ensures multiset(Flatten(results, OwnKeys(Categories(results)))) == multiset(results)
    ensures |Flatten(results, OwnKeys(Categories(results)))| == |results|
  {
    FlattenReorder(results, OwnKeys(Categories(results)), Categories(results));
    CategoriesPermute(results);
    assert |multiset(Flatten(results, OwnKeys(Categories(results))))| == |multiset(results)|;
  }

  /** The first result of a category stays first when results are appended. */
  lemma {:induction false} FirstIndexSnoc(results: seq<TestResult>, r: TestResult, c: string)
    ensures FirstIndex(results + [r], c) ==
            if FirstIndex(results, c) < |results| then FirstIndex(results, c)
            else if r.category == c then |results| else |results| + 1
    ensures FirstIndex(results, c) <= |results|
    ensures FirstIndex(results, c) < |results| <==> exists k :: 0 <= k < |results| && results[k].category == c
    decreases |results|
  {
    if results != [] {
      FirstIndexSnoc(results[1..], r, c);
      assert (results + [r])[1..] == results[1..] + [r];
      if exists k :: 0 <= k < |results[1..]| && results[1..][k].category == c {
        var k :| 0 <= k < |results[1..]| && results[1..][k].category == c;
        assert results[k + 1].category == c;
      }
      if k :| 0 <= k < |results| && results[k].category == c {
        if k > 0 && results[0].category != c {
          assert results[1..][k - 1].category == c;
        }
      }
    }
  }

  /** Each category's first index is that of a result of the category. */
  lemma {:induction false} FirstIndexOfCategories(results: seq<TestResult>)
    ensures var cs := Categories(results);
      forall i :: 0 <= i < |cs| ==>
        FirstIndex(results, cs[i]) < |results| && results[FirstIndex(results, cs[i])].category == cs[i]
  {
    CategoriesExact(results);
    var cs := Categories(results);
    forall i | 0 <= i < |cs|
      ensures FirstIndex(results, cs[i]) < |results| && results[FirstIndex(results, cs[i])].category == cs[i]
    {
      FirstIndexFinds(results, cs[i]);
    }
  }

  /** `FirstIndex` finds a result of the category when there is one. */
  lemma {:induction false} FirstIndexFinds(results: seq<TestResult>, c: string)
    requires c in Categories(results)
    ensures FirstIndex(results, c) < |results| && results[FirstIndex(results, c)].category == c
    decreases |results|
  {
    CategoriesExact(results);
    var k :| 0 <= k < |results| && results[k].category == c;
    FirstIndexSnoc(results, results[0], c);
    if results[0].category != c {
      assert results[1..][k - 1].category == c;
      CategoriesExact(results[1..]);
      FirstIndexFinds(results[1..], c);
    }
  }

  /** Categories are listed in order of their first result. */
  lemma {:induction false} CategoriesInFirstAppearanceOrder(results: seq<TestResult>)
    ensures forall i, j :: 0 <= i < j < |Categories(results)| ==>
              FirstIndex(results, Categories(results)[i]) < FirstIndex(results, Categories(results)[j])
    decreases |results|
  {
    if results != [] {
      var n := |results| - 1;
      var before, r := results[..n], results[n];
      assert results == before + [r];
      CategoriesInFirstAppearanceOrder(before);
      CategoriesExact(before);
      var cs0, cs := Categories(before), Categories(results);
      assert cs == if r.category in cs0 then cs0 else cs0 + [r.category];
      forall c | c in cs0
        ensures FirstIndex(results, c) == FirstIndex(before, c) < n
      {
        FirstIndexSnoc(before, r, c);
      }
      if r.category !in cs0 {
        FirstIndexSnoc(before, r, r.category);
        assert FirstIndex(results, r.category) == n;
      }
      forall i, j | 0 <= i < j < |cs|
        ensures FirstIndex(results, cs[i]) < FirstIndex(results, cs[j])
      {
        assert cs[i] == cs0[i] && cs0[i] in cs0;
        if j < |cs0| {
          assert cs[j] == cs0[j] && cs0[j] in cs0;
        } else {
          assert cs[j] == r.category && r.category !in cs0;
        }
      }
    }
  }

  /**
   * When no category is an array index such as `"0"` or `"42"`, the sections
   * come in order of first appearance of their category.
   */
  lemma SectionsInFirstAppearanceOrder(results: seq<TestResult>)
    requires forall k :: 0 <= k < |results| ==> !IsArrayIndex(results[k].category)
    ensures var keys := OwnKeys(Categories(results));
      && keys == Categories(results)
      && forall i, j :: 0 <= i < j < |keys| ==> FirstIndex(results, keys[i]) < FirstIndex(results, keys[j])
  {
    CategoriesExact(results);
    CategoriesInFirstAppearanceOrder(results);
    FirstIndexOfCategories(results);
    var cs := Categories(results);
    forall i | 0 <= i < |cs| ensures !IsArrayIndex(cs[i]) {
      assert cs[i] in cs;
    }
    OwnKeysCreationOrder(cs);
  }

  // ---------------------------------------------------------------------
  // The lookup as written

  /** The names an empty object literal inherits from Object.prototype. */
  const PrototypeNames: set<string> := {
    "constructor", "hasOwnProperty", "isPrototypeOf", "propertyIsEnumerable", "toLocaleString",
    "toString", "valueOf", "__proto__", "__defineGetter__", "__defineSetter__",
    "__lookupGetter__", "__lookupSetter__"}

  /** What `categories[key]` finds: an own array, an inherited member (a function or the prototype), or nothing. */
  datatype Property = OwnList(list: seq<TestResult>) | Inherited | Undefined

  function Lookup(lists: map<string, seq<TestResult>>, key: string): Property {
    if key in lists then OwnList(lists[key])
    else if key in PrototypeNames then Inherited
    else Undefined
  }

  /**
   * The grouping callback as written: the array is created only when the lookup is
   * falsy, and `push` on an inherited member throws a TypeError (`None`).
   */
  function RecordAsWritten(lists: map<string, seq<TestResult>>, r: TestResult): Option<map<string, seq<TestResult>>> {
    var lists := if Lookup(lists, r.category).Undefined? then lists[r.category := []] else lists;
    match Lookup(lists, r.category)
    case OwnList(list) => Some(lists[r.category := list + [r]])
    case _ => None
  }

  /**
   * A result whose category is a name inherited from `Object.prototype`
   * (`toString`, `constructor`, ...) and not yet an own key makes the
   * report generator throw.
   */
  lemma PrototypeCategoryThrows(lists: map<string, seq<TestResult>>, r: TestResult)
    requires r.category in PrototypeNames && r.category !in lists
    ensures RecordAsWritten(lists, r) == None
  {
  }

  /** Away from inherited names the code as written and the corrected step agree. */
  lemma RecordAsWrittenAgrees(lists: map<string, seq<TestResult>>, r: TestResult)
    requires r.category !in PrototypeNames
    ensures RecordAsWritten(lists, r) == Some(Recorded(lists, r))
  {
    if r.category !in lists {
      var created := lists[r.category := []];
      assert Lookup(lists, r.category) == Undefined;
      assert Lookup(created, r.category) == OwnList([]);
      assert [] + [r] == [r];
      assert created[r.category := [r]] == lists[r.category := [r]];
    }
  }
}
