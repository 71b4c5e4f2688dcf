/**
 The strict comparison of two observation trees in dev/compat/compare.py, after the normalizers
 have masked what may differ.
 */
module ObservationCompare {
  import opened JsonPointers
  import opened Wrappers

  datatype Rule = Rule(path: string, kind: string)

  /** The two regular expressions, as tests of a whole string. */
  datatype Patterns = Patterns(uuid: string -> bool, timestamp: string -> bool)

  datatype Difference =
    | Missing(path: string, paper: Json)
    | Extra(path: string, foton: Json)
    | Changed(path: string, paper: Json, foton: Json)

  // ----------------------------------------------------------------- normalizing

  /** What a normalizer of this kind puts in place of a value it accepts. */
  function Placeholder(kind: string, value: Json, patterns: Patterns): (mask: Option<Json>)
    ensures mask.Some? ==> mask.value.Str?
    ensures mask.Some? ==> value.Int? || value.Str?
  {
    if kind == "port" && value.Int? && 0 < value.n < 65536 then Some(Str("<port>"))
    else if kind == "uuid" && value.Str? && patterns.uuid(value.s) then Some(Str("<uuid>"))
    else if kind == "timestamp" && value.Str? && patterns.timestamp(value.s) then Some(Str("<timestamp>"))
    else None
  }

  function SetAt(data: Json, site: Site, value: Json): Json
    requires At(data, site).Some?
    decreases |site|
  {
    if site == [] then value else WithChild(data, site[0], SetAt(Child(data, site[0]), site[1..], value))
  }

  function WithChild(data: Json, step: Step, child: Json): Json
    requires Has(data, step)
  {
    if data.Obj? then Obj(data.members[step.name := child]) else Arr(data.items[step.i := child])
  }

  /** The place a rule masks and the placeholder for it; `None` where Python raises. */
  function MaskOf(data: Json, rule: Rule, patterns: Patterns): (mask: Option<(Site, Json)>)
    ensures mask.Some? ==> At(data, mask.value.0).Some? && (At(data, mask.value.0).value.Int? || At(data, mask.value.0).value.Str?)
    ensures mask.Some? ==> mask.value.1.Str?
  {
    var site := Locate(data, rule.path);
    if site.None? then None
    else
      LocatedExists(data, rule.path);
      var value := Placeholder(rule.kind, At(data, site.value).value, patterns);
      if value.None? then None else Some((site.value, value.value))
  }

  lemma LocatedExists(data: Json, path: string)
    requires Locate(data, path).Some?
    ensures At(data, Locate(data, path).value).Some?
  {
    hide Resolve, At;
    ResolvedExists(data, Segments.Split(path[1..], '/'));
  }

  function Normalized(data: Json, rules: seq<Rule>, patterns: Patterns): Option<Json>
    decreases |rules|
  {
    if rules == [] then Some(data)
    else
      var mask := MaskOf(data, rules[0], patterns);
      if mask.None? then None else Normalized(SetAt(data, mask.value.0, mask.value.1), rules[1..], patterns)
  }

  /** `normalize_observation`; `None` stands for the ValueError or lookup error it raises. */
  method NormalizeObservation(data: Json, rules: seq<Rule>, patterns: Patterns) returns (r: Option<Json>)
    ensures r == Normalized(data, rules, patterns)
  {
    hide SetAt, MaskOf;
    var result := data;
    for i := 0 to |rules|
      invariant Normalized(result, rules[i..], patterns) == Normalized(data, rules, patterns)
    {
      assert rules[i..][1..] == rules[i + 1..];
      var mask := MaskOf(result, rules[i], patterns);
      if mask.None? {
        return None;
      }
      result := SetAt(result, mask.value.0, mask.value.1);
    }
    r := Some(result);
  }

  // ------------------------------------------------------------------ the walk

  /**
   The places `walk` stops at and complains: a member or element only one side has, or two values
   that are not both objects or both arrays and not the same value of the same type.
   */
  ghost predicate DiffersAt(l: Json, r: Json, site: Site)
    decreases |site|
  {
    if site == [] then !BothContain(l, r) && !(l == r && !l.NaN?)
    else
      var step := site[0];
      && BothContain(l, r)
      && if Has(l, step) && Has(r, step) then DiffersAt(Child(l, step), Child(r, step), site[1..])
         else |site| == 1 && (Has(l, step) || Has(r, step))
  }

  predicate BothContain(l: Json, r: Json) {
    (l.Obj? && r.Obj?) || (l.Arr? && r.Arr?)
  }

  /** What is reported about a place where the trees differ; one of them has it. */
  ghost function Report(l: Json, r: Json, base: string, site: Site): Difference {
    match (At(l, site), At(r, site))
    case (Some(x), None) => Missing(base + Render(site), x)
    case (None, Some(y)) => Extra(base + Render(site), y)
    case (Some(x), Some(y)) => Changed(PathText(base + Render(site)), x, y)
    case (None, None) => Changed(base, l, r)
  }

  ghost predicate NoneTwice(found: seq<Difference>) {
    forall i, j :: 0 <= i < j < |found| ==> found[i] != found[j]
  }

  /** Every difference is reported once, and nothing else is. */
  ghost predicate Reports(found: seq<Difference>, l: Json, r: Json, base: string) {
    NoneTwice(found) && forall d :: d in found <==> exists site :: ReportedFor(d, l, r, base, site)
  }

  ghost predicate ReportedFor(d: Difference, l: Json, r: Json, base: string, site: Site) {
    DiffersAt(l, r, site) && d == Report(l, r, base, site)
  }

  /** The same of the places that lie behind some of the steps from here. */
  ghost predicate ReportsWithin(found: seq<Difference>, l: Json, r: Json, base: string, steps: set<Step>) {
    NoneTwice(found) && forall d :: d in found <==> exists site :: site != [] && site[0] in steps && ReportedFor(d, l, r, base, site)
  }

  lemma NothingYet(l: Json, r: Json, base: string)
    ensures ReportsWithin([], l, r, base, {})
  {
  }

  lemma OneMoreStep(found: seq<Difference>, more: seq<Difference>, l: Json, r: Json, base: string, steps: set<Step>, step: Step)
    requires ReportsWithin(found, l, r, base, steps) && ReportsWithin(more, l, r, base, {step}) && step !in steps
    ensures ReportsWithin(found + more, l, r, base, steps + {step})
  {
    hide ReportedFor;
    forall i, j | 0 <= i < j < |found + more|
      ensures (found + more)[i] != (found + more)[j]
    {
      if i < |found| <= j {
        ReportsDiffer(found, more, l, r, base, steps, step, i, j - |found|);
      }
    }
    forall d
      ensures d in found + more <==> exists site :: site != [] && site[0] in steps + {step} && ReportedFor(d, l, r, base, site)
    {
      assert d in found + more <==> d in found || d in more;
      if d in found {
        var site :| site != [] && site[0] in steps && ReportedFor(d, l, r, base, site);
      } else if d in more {
        var site :| site != [] && site[0] in {step} && ReportedFor(d, l, r, base, site);
      }
    }
  }

  /** Reports from behind different steps differ. */
  lemma ReportsDiffer(found: seq<Difference>, more: seq<Difference>, l: Json, r: Json, base: string, steps: set<Step>, step: Step, i: nat, j: nat)
    requires ReportsWithin(found, l, r, base, steps) && ReportsWithin(more, l, r, base, {step}) && step !in steps
    requires i < |found| && j < |more|
    ensures found[i] != more[j]
  {
    hide ReportedFor;
    assert found[i] in found && more[j] in more;
    if found[i] == more[j] {
      var p :| p != [] && p[0] in steps && ReportedFor(found[i], l, r, base, p);
      var q :| q != [] && q[0] in {step} && ReportedFor(found[i], l, r, base, q);
      OneReportOnePlace(found[i], l, r, base, p, q);
    }
  }

  /** No two places have the same report. */
  lemma OneReportOnePlace(d: Difference, l: Json, r: Json, base: string, p: Site, q: Site)
    requires ReportedFor(d, l, r, base, p) && ReportedFor(d, l, r, base, q)
    ensures p == q
  {
    hide At, Render;
    if p != [] && q != [] {
      ReportPath(d, l, r, base, p);
      ReportPath(d, l, r, base, q);
      assert (base + Render(p))[|base|..] == Render(p) && (base + Render(q))[|base|..] == Render(q);
      SameTexts(p, q);
      SamePlace(l, r, p, q);
    }
  }

  lemma ReportPath(d: Difference, l: Json, r: Json, base: string, site: Site)
    requires ReportedFor(d, l, r, base, site) && site != []
    ensures d.path == base + Render(site)
  {
    hide At, Render;
    DifferingExists(l, r, site);
    RenderNonEmpty(site);
  }

  lemma {:induction false} SamePlace(l: Json, r: Json, p: Site, q: Site)
    requires DiffersAt(l, r, p) && DiffersAt(l, r, q) && StepTexts(p) == StepTexts(q)
    ensures p == q
    decreases |p|
  {
    hide StepText;
    assert |StepTexts(p)| == |p| && |StepTexts(q)| == |q| by { TextsOfSteps(p); TextsOfSteps(q); }
    if p != [] {
      assert StepTexts(p)[0] == StepTexts(q)[0] && StepTexts(p)[1..] == StepTexts(q)[1..];
      OneStepOneText(p[0], q[0]);
      if |p| > 1 {
        SamePlace(Child(l, p[0]), Child(r, p[0]), p[1..], q[1..]);
      }
      assert p == [p[0]] + p[1..] && q == [q[0]] + q[1..];
    }
  }

  /** All places where two containers of a kind differ lie behind the steps of one of them. */
  lemma AllSteps(found: seq<Difference>, l: Json, r: Json, base: string, steps: set<Step>)
    requires BothContain(l, r) && ReportsWithin(found, l, r, base, steps)
    requires forall step :: Has(l, step) || Has(r, step) ==> step in steps
    ensures Reports(found, l, r, base)
  {
    hide Report;
    forall site | DiffersAt(l, r, site)
      ensures site != [] && site[0] in steps
    {
      assert Has(l, site[0]) || Has(r, site[0]);
    }
    forall d, site | ReportedFor(d, l, r, base, site)
      ensures site != [] && site[0] in steps
    {
    }
  }

  lemma ChildDiffers(l: Json, r: Json, base: string, step: Step, site: Site)
    requires BothContain(l, r) && Has(l, step) && Has(r, step)
    ensures DiffersAt(l, r, [step] + site) <==> DiffersAt(Child(l, step), Child(r, step), site)
    ensures Report(l, r, base, [step] + site) == Report(Child(l, step), Child(r, step), base + Render([step]), site)
      || !DiffersAt(l, r, [step] + site)
  {
    hide StepText;
    assert ([step] + site)[1..] == site;
    RenderStep(step, site, base);
    ChildAt(l, step, site);
    ChildAt(r, step, site);
    DifferingExists(Child(l, step), Child(r, step), site);
  }

  lemma RenderStep(step: Step, site: Site, base: string)
    ensures Render([step]) == "/" + StepText(step)
    ensures base + Render([step] + site) == base + Render([step]) + Render(site)
  {
    hide StepText;
    assert ([step] + site)[1..] == site;
    assert [step][1..] == [];
    assert Render([]) == "";
  }

  lemma ChildAt(data: Json, step: Step, site: Site)
    requires Has(data, step)
    ensures At(data, [step] + site) == At(Child(data, step), site)
  {
    assert ([step] + site)[1..] == site;
    assert [step][1..] == [];
  }

  lemma {:induction false} DifferingExists(l: Json, r: Json, site: Site)
    ensures DiffersAt(l, r, site) ==> At(l, site).Some? || At(r, site).Some?
    decreases |site|
  {
    if site != [] && DiffersAt(l, r, site) && Has(l, site[0]) && Has(r, site[0]) {
      DifferingExists(Child(l, site[0]), Child(r, site[0]), site[1..]);
    }
  }

  lemma ChildReported(d: Difference, l: Json, r: Json, base: string, step: Step, site: Site)
    requires BothContain(l, r) && Has(l, step) && Has(r, step)
    ensures ReportedFor(d, Child(l, step), Child(r, step), base + Render([step]), site) <==> ReportedFor(d, l, r, base, [step] + site)
  {
    hide DiffersAt, Report, Child, BothContain, Has, Render;
    ChildDiffers(l, r, base, step, site);
  }

  lemma Behind(d: Difference, l: Json, r: Json, base: string, step: Step)
    requires BothContain(l, r) && Has(l, step) && Has(r, step)
    ensures (exists site :: ReportedFor(d, Child(l, step), Child(r, step), base + Render([step]), site))
       <==> exists site :: site != [] && site[0] in {step} && ReportedFor(d, l, r, base, site)
  {
    hide ReportedFor, Child, BothContain, Has, Render;
    var (a, b, path) := (Child(l, step), Child(r, step), base + Render([step]));
    if exists site :: ReportedFor(d, a, b, path, site) {
      var site :| ReportedFor(d, a, b, path, site);
      ChildReported(d, l, r, base, step, site);
      assert ([step] + site)[0] == step;
    }
    if exists site :: site != [] && site[0] in {step} && ReportedFor(d, l, r, base, site) {
      var site :| site != [] && site[0] in {step} && ReportedFor(d, l, r, base, site);
      assert site == [step] + site[1..];
      ChildReported(d, l, r, base, step, site[1..]);
    }
  }

  /** What the walk finds behind a step both sides have. */
  lemma Nested(found: seq<Difference>, l: Json, r: Json, base: string, step: Step)
    requires BothContain(l, r) && Has(l, step) && Has(r, step)
    requires Reports(found, Child(l, step), Child(r, step), base + Render([step]))
    ensures ReportsWithin(found, l, r, base, {step})
  {
    hide ReportedFor, Child, BothContain, Has, Render;
    forall d
      ensures d in found <==> exists site :: site != [] && site[0] in {step} && ReportedFor(d, l, r, base, site)
    {
      Behind(d, l, r, base, step);
    }
  }

  /** A step only one side has is one difference. */
  lemma OneSided(l: Json, r: Json, base: string, step: Step)
    requires BothContain(l, r) && Has(l, step) != Has(r, step)
    ensures ReportsWithin([Report(l, r, base, [step])], l, r, base, {step})
  {
    hide Report;
    forall site | site != [] && site[0] == step && DiffersAt(l, r, site)
      ensures site == [step]
    {
    }
    assert DiffersAt(l, r, [step]);
    var d := Report(l, r, base, [step]);
    assert ReportedFor(d, l, r, base, [step]);
  }

  lemma SidedReport(l: Json, r: Json, base: string, step: Step)
    ensures Has(l, step) && !Has(r, step) ==> Report(l, r, base, [step]) == Missing(base + "/" + StepText(step), Child(l, step))
    ensures !Has(l, step) && Has(r, step) ==> Report(l, r, base, [step]) == Extra(base + "/" + StepText(step), Child(r, step))
  {
    hide StepText;
    RenderStep(step, [], base);
    assert base + ("/" + StepText(step)) == base + "/" + StepText(step);
    AtOne(l, step);
    AtOne(r, step);
  }

  lemma AtOne(data: Json, step: Step)
    ensures At(data, [step]) == if Has(data, step) then Some(Child(data, step)) else None
  {
    assert [step][1..] == [];
  }

  /** Where the walk cannot descend, the values themselves decide. */
  lemma AtLeaves(l: Json, r: Json, base: string)
    requires !BothContain(l, r)
    ensures Reports(if l == r && !l.NaN? then [] else [Changed(PathText(base), l, r)], l, r, base)
  {
    EmptyRender();
    assert base + "" == base;
    assert Report(l, r, base, []) == Changed(PathText(base), l, r);
    forall site | site != []
      ensures !DiffersAt(l, r, site)
    {
    }
    assert (l == r && !l.NaN?) || ReportedFor(Changed(PathText(base), l, r), l, r, base, []);
  }

  /** The list `walk` appends to. */
  class Comparison {
    var differences: seq<Difference>

    constructor ()
      ensures differences == []
    {
      differences := [];
    }

    method Walk(l: Json, r: Json, path: string) returns (ghost found: seq<Difference>)
      modifies this
      ensures differences == old(differences) + found
      ensures Reports(found, l, r, path)
      decreases l, 1
    {
      if l.Obj? && r.Obj? {
        found := WalkObjects(l, r, path);
      } else if l.Arr? && r.Arr? {
        found := WalkArrays(l, r, path);
      } else {
        AtLeaves(l, r, path);
        found := [];
        if !(l == r && !l.NaN?) {
          differences := differences + [Changed(PathText(path), l, r)];
          found := [Changed(PathText(path), l, r)];
        }
      }
    }

    method WalkObjects(l: Json, r: Json, path: string) returns (ghost found: seq<Difference>)
      requires l.Obj? && r.Obj?
      modifies this
      ensures differences == old(differences) + found
      ensures Reports(found, l, r, path)
      decreases l, 0
    {
      hide Reports, ReportsWithin, Report, Escape, Render;
      var keys := l.members.Keys + r.members.Keys;
      var todo := keys;
      found := [];
      ghost var done: set<Step> := {};
      NothingYet(l, r, path);
      while todo != {}
        invariant todo <= keys
        invariant forall k :: k in keys && k !in todo ==> Key(k) in done
        invariant forall k :: k in todo ==> Key(k) !in done
        invariant differences == old(differences) + found
        invariant ReportsWithin(found, l, r, path, done)
        decreases |todo|
      {
        var key: string :| key in todo;
        todo := todo - {key};
        var child := path + "/" + Escape(key);
        SidedReport(l, r, path, Key(key));
        RenderStep(Key(key), [], path);
        assert child == path + ("/" + Escape(key));
        ghost var more;
        if key !in r.members {
          differences := differences + [Missing(child, l.members[key])];
          more := [Missing(child, l.members[key])];
          OneSided(l, r, path, Key(key));
        } else if key !in l.members {
          differences := differences + [Extra(child, r.members[key])];
          more := [Extra(child, r.members[key])];
          OneSided(l, r, path, Key(key));
        } else {
          more := Walk(l.members[key], r.members[key], child);
          Nested(more, l, r, path, Key(key));
        }
        OneMoreStep(found, more, l, r, path, done, Key(key));
        found := found + more;
        done := done + {Key(key)};
      }
      AllSteps(found, l, r, path, done);
    }

    method WalkArrays(l: Json, r: Json, path: string) returns (ghost found: seq<Difference>)
      requires l.Arr? && r.Arr?
      modifies this
      ensures differences == old(differences) + found
      ensures Reports(found, l, r, path)
      decreases l, 0
    {
      hide Reports, ReportsWithin, Report, Decimals.Decimal, Render;
      var length := if |l.items| > |r.items| then |l.items| else |r.items|;
      found := [];
      ghost var done: set<Step> := {};
      NothingYet(l, r, path);
      for index := 0 to length
        invariant forall i: nat :: i < index <==> Index(i) in done
        invariant differences == old(differences) + found
        invariant ReportsWithin(found, l, r, path, done)
      {
        var child := path + "/" + Decimals.Decimal(index);
        SidedReport(l, r, path, Index(index));
        RenderStep(Index(index), [], path);
        assert child == path + ("/" + Decimals.Decimal(index));
        ghost var more;
        if index >= |r.items| {
          differences := differences + [Missing(child, l.items[index])];
          more := [Missing(child, l.items[index])];
          OneSided(l, r, path, Index(index));
        } else if index >= |l.items| {
          differences := differences + [Extra(child, r.items[index])];
          more := [Extra(child, r.items[index])];
          OneSided(l, r, path, Index(index));
        } else {
          more := Walk(l.items[index], r.items[index], child);
          Nested(more, l, r, path, Index(index));
        }
        OneMoreStep(found, more, l, r, path, done, Index(index));
        found := found + more;
        done := done + {Index(index)};
      }
      AllSteps(found, l, r, path, done);
    }
  }

  /** `compare_observations`; `None` where a normalizer raises. */
  method CompareObservations(paper: Json, foton: Json, rules: seq<Rule>, patterns: Patterns) returns (r: Option<seq<Difference>>)
    ensures r.None? <==> Normalized(paper, rules, patterns).None? || Normalized(foton, rules, patterns).None?
    ensures r.Some? ==> Reports(r.value, Normalized(paper, rules, patterns).value, Normalized(foton, rules, patterns).value, "")
  {
    var left := NormalizeObservation(paper, rules, patterns);
    var right := NormalizeObservation(foton, rules, patterns);
    if left.None? || right.None? {
      return None;
    }
    var comparison := new Comparison();
    var found := comparison.Walk(left.value, right.value, "");
    r := Some(comparison.differences);
  }

  /** The path leads to the place in each tree that has it. */
  ghost predicate LeadsTo(path: string, l: Json, r: Json, site: Site) {
    && (At(l, site).Some? ==> Locate(l, path) == Some(site))
    && (At(r, site).Some? ==> Locate(r, path) == Some(site))
  }

  /** Every reported path leads `_pointer` to a place where the trees differ, unless they differ as a whole. */
  lemma ReportedPathsLead(found: seq<Difference>, l: Json, r: Json, d: Difference)
    requires Reports(found, l, r, "") && d in found
    ensures exists site :: DiffersAt(l, r, site) && (site == [] || LeadsTo(d.path, l, r, site))
  {
    hide DiffersAt, Locate, Render;
    var site :| ReportedFor(d, l, r, "", site);
    assert "" + Render(site) == Render(site);
    DifferingExists(l, r, site);
    if site != [] {
      RenderNonEmpty(site);
      if At(l, site).Some? {
        ReportedPathReaches(l, site);
      }
      if At(r, site).Some? {
        ReportedPathReaches(r, site);
      }
      assert LeadsTo(d.path, l, r, site);
    }
  }

  lemma RenderNonEmpty(site: Site)
    requires site != []
    ensures Render(site) != ""
  {
    hide StepText;
  }

  // ------------------------------------------------- no difference means the same

  /** What a place holds: which container, or the value itself. */
  datatype Shape = AnObject | AnArray | Leaf(value: Json)

  function ShapeOf(data: Json): Shape {
    if data.Obj? then AnObject else if data.Arr? then AnArray else Leaf(data)
  }

  function View(data: Json, site: Site): Option<Shape> {
    var here := At(data, site);
    if here.None? then None else Some(ShapeOf(here.value))
  }

  /** The same places hold the same values of the same types, and no value is NaN. */
  ghost predicate SameEverywhere(l: Json, r: Json) {
    forall site :: View(l, site) == View(r, site) && View(l, site) != Some(Leaf(NaN))
  }

  lemma ViewChild(data: Json, step: Step, site: Site)
    ensures View(data, [step] + site) == if Has(data, step) then View(Child(data, step), site) else None
  {
    assert ([step] + site)[1..] == site;
  }

  lemma {:induction false} DiffersSomewhere(l: Json, r: Json, site: Site) returns (at: Site)
    requires View(l, site) != View(r, site) || View(l, site) == Some(Leaf(NaN))
    ensures DiffersAt(l, r, at)
    decreases |site|
  {
    if !BothContain(l, r) {
      at := [];
    } else if site == [] {
      at := [];
    } else {
      var step := site[0];
      assert site == [step] + site[1..];
      ViewChild(l, step, site[1..]);
      ViewChild(r, step, site[1..]);
      if Has(l, step) && Has(r, step) {
        var deeper := DiffersSomewhere(Child(l, step), Child(r, step), site[1..]);
        at := [step] + deeper;
        assert at[1..] == deeper;
      } else {
        at := [step];
      }
    }
  }

  lemma {:induction false} DifferenceIsSeen(l: Json, r: Json, site: Site)
    requires DiffersAt(l, r, site)
    ensures View(l, site) != View(r, site) || View(l, site) == Some(Leaf(NaN))
    decreases |site|
  {
    if site != [] {
      var step := site[0];
      assert site == [step] + site[1..];
      ViewChild(l, step, site[1..]);
      ViewChild(r, step, site[1..]);
      if Has(l, step) && Has(r, step) {
        DifferenceIsSeen(Child(l, step), Child(r, step), site[1..]);
      }
    }
  }

  /** The walk reports nothing exactly when the trees are the same everywhere. */
  lemma NothingReportedIffSame(found: seq<Difference>, l: Json, r: Json, base: string)
    requires Reports(found, l, r, base)
    ensures found == [] <==> SameEverywhere(l, r)
  {
    hide DiffersAt, Report, View;
    if found != [] {
      assert found[0] in found;
      var site :| ReportedFor(found[0], l, r, base, site);
      DifferenceIsSeen(l, r, site);
    }
    if !SameEverywhere(l, r) {
      var site :| !(View(l, site) == View(r, site) && View(l, site) != Some(Leaf(NaN)));
      var at := DiffersSomewhere(l, r, site);
      var d := Report(l, r, base, at);
      assert ReportedFor(d, l, r, base, at);
      assert d in found;
    }
  }

  /** Being the same everywhere is being equal, type for type, member for member. */
  lemma {:induction false} SameIsEqual(l: Json, r: Json)
    requires SameEverywhere(l, r)
    ensures l == r
    decreases l
  {
    hide At;
    ViewHere(l);
    ViewHere(r);
    assert View(l, []) == View(r, []);
    if l.Obj? {
      forall k
        ensures k in l.members <==> k in r.members
        ensures k in l.members ==> l.members[k] == r.members[k]
      {
        SameStep(l, r, Key(k));
        if k in l.members {
          SameIsEqual(l.members[k], r.members[k]);
        }
      }
      assert l.members == r.members;
    } else if l.Arr? {
      forall i: nat
        ensures i < |l.items| <==> i < |r.items|
        ensures i < |l.items| ==> l.items[i] == r.items[i]
      {
        SameStep(l, r, Index(i));
        if i < |l.items| {
          SameIsEqual(l.items[i], r.items[i]);
        }
      }
      SameStep(l, r, Index(|l.items|));
      SameStep(l, r, Index(|r.items|));
      assert l.items == r.items;
    }
  }

  lemma ViewHere(data: Json)
    ensures View(data, []) == Some(ShapeOf(data))
  {
  }

  lemma SameStep(l: Json, r: Json, step: Step)
    requires SameEverywhere(l, r)
    ensures Has(l, step) == Has(r, step)
    ensures Has(l, step) ==> SameEverywhere(Child(l, step), Child(r, step))
  {
    hide View, Has;
    ViewChild(l, step, []);
    ViewChild(r, step, []);
    assert View(l, [step] + []) == View(r, [step] + []);
    if Has(l, step) {
      ViewHere(Child(l, step));
    }
    if Has(r, step) {
      ViewHere(Child(r, step));
    }
    forall site | Has(l, step) && Has(r, step)
      ensures View(Child(l, step), site) == View(Child(r, step), site) && View(Child(l, step), site) != Some(Leaf(NaN))
    {
      ViewChild(l, step, site);
      ViewChild(r, step, site);
      assert View(l, [step] + site) == View(r, [step] + site);
    }
  }

  // ------------------------------------------------------------ what is masked

  predicate IsLeaf(data: Json) {
    !data.Obj? && !data.Arr?
  }

  /** Masking a leaf changes that place and no other. */
  lemma {:induction false} MaskView(data: Json, site: Site, mask: Json, q: Site)
    requires At(data, site).Some? && IsLeaf(At(data, site).value) && IsLeaf(mask)
    ensures View(SetAt(data, site, mask), q) == if q == site then Some(Leaf(mask)) else View(data, q)
    decreases |site|
  {
    if site == [] {
      if q != [] {
        assert !Has(mask, q[0]) && !Has(data, q[0]);
      }
    } else {
      var (step, child) := (site[0], SetAt(Child(data, site[0]), site[1..], mask));
      var after := SetAt(data, site, mask);
      if q == [] {
        assert ShapeOf(after) == ShapeOf(data);
      } else {
        assert q == [q[0]] + q[1..] && site == [step] + site[1..];
        ViewChild(after, q[0], q[1..]);
        ViewChild(data, q[0], q[1..]);
        ChildOfWithChild(data, step, child, q[0]);
        if q[0] == step {
          MaskView(Child(data, step), site[1..], mask, q[1..]);
        }
      }
    }
  }

  lemma ChildOfWithChild(data: Json, step: Step, child: Json, other: Step)
    requires Has(data, step)
    ensures Has(WithChild(data, step, child), other) == Has(data, other)
    ensures Has(data, other) ==> Child(WithChild(data, step, child), other) == if other == step then child else Child(data, other)
  {
  }

  /** The places the rules mask, with what they put there. */
  ghost function Masks(data: Json, rules: seq<Rule>, patterns: Patterns): map<Site, Json>
    requires Normalized(data, rules, patterns).Some?
    decreases |rules|
  {
    if rules == [] then map[]
    else
      var (site, mask) := MaskOf(data, rules[0], patterns).value;
      map[site := mask] + Masks(SetAt(data, site, mask), rules[1..], patterns)
  }

  ghost function MaskedView(data: Json, rules: seq<Rule>, patterns: Patterns, site: Site): Option<Shape>
    requires Normalized(data, rules, patterns).Some?
  {
    if site in Masks(data, rules, patterns) then Some(Leaf(Masks(data, rules, patterns)[site])) else View(data, site)
  }

  /** Normalizing changes the masked places and no other. */
  lemma {:induction false} NormalizedView(data: Json, rules: seq<Rule>, patterns: Patterns, site: Site)
    requires Normalized(data, rules, patterns).Some?
    ensures View(Normalized(data, rules, patterns).value, site) == MaskedView(data, rules, patterns, site)
    decreases |rules|
  {
    hide View, SetAt, MaskOf, At;
    if rules != [] {
      var (at, mask) := MaskOf(data, rules[0], patterns).value;
      NormalizedView(SetAt(data, at, mask), rules[1..], patterns, site);
      MaskView(data, at, mask, site);
    }
  }

  predicate RejectsPlaceholders(patterns: Patterns) {
    forall s :: s in {"<port>", "<uuid>", "<timestamp>"} ==> !patterns.uuid(s) && !patterns.timestamp(s)
  }

  ghost predicate ValidFor(data: Json, rules: seq<Rule>, patterns: Patterns, site: Site, mask: Json) {
    exists i :: 0 <= i < |rules| && ValidForRule(data, rules[i], patterns, site, mask)
  }

  ghost predicate ValidForRule(data: Json, rule: Rule, patterns: Patterns, site: Site, mask: Json) {
    At(data, site).Some? && Placeholder(rule.kind, At(data, site).value, patterns) == Some(mask)
  }

  /** Only a value that the rule's kind accepts is ever masked, on the tree as it was given. */
  lemma {:induction false} OnlyValidValuesAreMasked(data: Json, rules: seq<Rule>, patterns: Patterns, site: Site)
    requires RejectsPlaceholders(patterns) && Normalized(data, rules, patterns).Some? && site in Masks(data, rules, patterns)
    ensures ValidFor(data, rules, patterns, site, Masks(data, rules, patterns)[site])
    decreases |rules|
  {
    hide SetAt, At, Locate, Placeholder;
    var (at, mask) := MaskOf(data, rules[0], patterns).value;
    var after := SetAt(data, at, mask);
    if site in Masks(after, rules[1..], patterns) {
      OnlyValidValuesAreMasked(after, rules[1..], patterns, site);
      var m := Masks(data, rules, patterns)[site];
      var i :| 0 <= i < |rules[1..]| && ValidForRule(after, rules[1..][i], patterns, site, m);
      BeforeMask(data, rules[0], rules[i + 1], patterns, site, m);
      assert ValidForRule(data, rules[i + 1], patterns, site, m);
    } else {
      assert ValidForRule(data, rules[0], patterns, site, mask);
    }
  }

  lemma BeforeMask(data: Json, first: Rule, rule: Rule, patterns: Patterns, site: Site, m: Json)
    requires RejectsPlaceholders(patterns) && MaskOf(data, first, patterns).Some?
    requires var (at, mask) := MaskOf(data, first, patterns).value; ValidForRule(SetAt(data, at, mask), rule, patterns, site, m)
    ensures ValidForRule(data, rule, patterns, site, m)
  {
    hide SetAt, At, Locate;
    var (at, mask) := MaskOf(data, first, patterns).value;
    MaskView(data, at, mask, site);
    if site == at {
      PlaceholderOfPlaceholder(first, At(data, at).value, rule, patterns);
    }
  }

  lemma PlaceholderOfPlaceholder(first: Rule, value: Json, rule: Rule, patterns: Patterns)
    requires RejectsPlaceholders(patterns) && Placeholder(first.kind, value, patterns).Some?
    ensures Placeholder(rule.kind, Placeholder(first.kind, value, patterns).value, patterns) == None
  {
  }

  /**
   The comparison reports nothing exactly when, away from the masked places, both trees hold the
   same values of the same types, at the masked places the same placeholder, and NaN nowhere.
   */
  lemma ComparesEqualExactly(paper: Json, foton: Json, rules: seq<Rule>, patterns: Patterns, found: seq<Difference>)
    requires Normalized(paper, rules, patterns).Some? && Normalized(foton, rules, patterns).Some?
    requires Reports(found, Normalized(paper, rules, patterns).value, Normalized(foton, rules, patterns).value, "")
    ensures found == []
       <==> forall site ::
              && MaskedView(paper, rules, patterns, site) == MaskedView(foton, rules, patterns, site)
              && MaskedView(paper, rules, patterns, site) != Some(Leaf(NaN))
  {
    hide Normalized, MaskedView, Reports, View;
    var (l, r) := (Normalized(paper, rules, patterns).value, Normalized(foton, rules, patterns).value);
    NothingReportedIffSame(found, l, r, "");
    forall site
      ensures View(l, site) == MaskedView(paper, rules, patterns, site) && View(r, site) == MaskedView(foton, rules, patterns, site)
    {
      NormalizedView(paper, rules, patterns, site);
      NormalizedView(foton, rules, patterns, site);
    }
  }

  // ------------------------------------------------------- what a normalizer accepts

  /** A port is a number from 1 to 65535, a UUID or timestamp a text its expression matches; nothing else is masked. */
  lemma MaskedExactly(kind: string, value: Json, patterns: Patterns)
    ensures Placeholder(kind, value, patterns).Some? <==>
              || (kind == "port" && exists n :: 1 <= n <= 65535 && value == Int(n))
              || (kind == "uuid" && exists s :: value == Str(s) && patterns.uuid(s))
              || (kind == "timestamp" && exists s :: value == Str(s) && patterns.timestamp(s))
    ensures Placeholder(kind, value, patterns).Some? ==> Placeholder(kind, value, patterns) == Some(Str("<" + kind + ">"))
  {
    if value.Int? {
      assert value == Int(value.n);
    } else if value.Str? {
      assert value == Str(value.s);
    }
    assert "<" + "port" + ">" == "<port>" && "<" + "uuid" + ">" == "<uuid>" && "<" + "timestamp" + ">" == "<timestamp>";
  }
}
