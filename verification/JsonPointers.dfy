/**
 JSON trees and the paths into them that dev/compat/compare.py writes and follows, with the
 escapes of section 4 of RFC 6901.
 */
module JsonPointers {
  import opened Decimals
  import opened Segments
  import opened Wrappers

  /** What Python's `json` module reads; `NaN` is the one value not equal to itself. */
  datatype Json =
    | Null
    | Bool(b: bool)
    | Int(n: int)
    | Float(x: real)
    | Infinite(negative: bool)
    | NaN
    | Str(s: string)
    | Arr(items: seq<Json>)
    | Obj(members: map<string, Json>)

  datatype Step = Key(name: string) | Index(i: nat)

  type Site = seq<Step>

  predicate Has(data: Json, step: Step) {
    match (data, step)
    case (Obj(m), Key(k)) => k in m
    case (Arr(a), Index(i)) => i < |a|
    case _ => false
  }

  function Child(data: Json, step: Step): (child: Json)
    requires Has(data, step)
    ensures child < data
  {
    if data.Obj? then data.members[step.name] else data.items[step.i]
  }

  /** The value at a place in a tree, if the tree has that place. */
  function At(data: Json, site: Site): Option<Json>
    decreases |site|
  {
    if site == [] then Some(data) else if Has(data, site[0]) then At(Child(data, site[0]), site[1..]) else None
  }

  // ------------------------------------------------------------------- escaping

  /** `text.replace(c, with)`. */
  function ReplaceChar(text: string, c: char, with: string): string {
    if text == "" then "" else (if text[0] == c then with else [text[0]]) + ReplaceChar(text[1..], c, with)
  }

  /** `text.replace("~" + code, with)`. */
  function ReplaceCode(text: string, code: char, with: char): string {
    if text == "" then ""
    else if |text| > 1 && text[0] == '~' && text[1] == code then [with] + ReplaceCode(text[2..], code, with)
    else [text[0]] + ReplaceCode(text[1..], code, with)
  }

  function Escape(key: string): string {
    ReplaceChar(ReplaceChar(key, '~', "~0"), '/', "~1")
  }

  function Unescape(part: string): string {
    ReplaceCode(ReplaceCode(part, '1', '/'), '0', '~')
  }

  /** What one character becomes. */
  function EscapedChar(c: char): string {
    if c == '~' then "~0" else if c == '/' then "~1" else [c]
  }

  lemma {:induction false} ReplaceJoined(a: string, b: string, c: char, with: string)
    ensures ReplaceChar(a + b, c, with) == ReplaceChar(a, c, with) + ReplaceChar(b, c, with)
  {
    if a == "" {
      assert a + b == b;
    } else {
      assert (a + b)[1..] == a[1..] + b;
      ReplaceJoined(a[1..], b, c, with);
    }
  }

  lemma ReplaceOne(c: char, x: char, with: string)
    ensures ReplaceChar([x], c, with) == if x == c then with else [x]
  {
    assert ReplaceChar("", c, with) == "";
  }

  lemma ReplaceInCode()
    ensures ReplaceChar("~0", '/', "~1") == "~0"
  {
    assert "~0" == ['~'] + ['0'];
    ReplaceJoined(['~'], ['0'], '/', "~1");
    ReplaceOne('/', '~', "~1");
    ReplaceOne('/', '0', "~1");
  }

  /** The two replacements work character by character. */
  lemma {:induction false} EscapeHead(key: string)
    requires key != ""
    ensures Escape(key) == EscapedChar(key[0]) + Escape(key[1..])
  {
    var head := if key[0] == '~' then "~0" else [key[0]];
    assert ReplaceChar(key, '~', "~0") == head + ReplaceChar(key[1..], '~', "~0");
    ReplaceJoined(head, ReplaceChar(key[1..], '~', "~0"), '/', "~1");
    ReplaceInCode();
    ReplaceOne('/', key[0], "~1");
  }

  lemma CodeHead(c: char, rest: string)
    ensures c == '~' ==> ReplaceCode("~0" + rest, '1', '/') == "~0" + ReplaceCode(rest, '1', '/')
    ensures c == '/' ==> ReplaceCode("~1" + rest, '1', '/') == "/" + ReplaceCode(rest, '1', '/')
    ensures c != '~' ==> ReplaceCode([c] + rest, '1', '/') == [c] + ReplaceCode(rest, '1', '/')
    ensures ReplaceCode("~0" + rest, '0', '~') == "~" + ReplaceCode(rest, '0', '~')
    ensures c != '~' ==> ReplaceCode([c] + rest, '0', '~') == [c] + ReplaceCode(rest, '0', '~')
  {
    assert ("~0" + rest)[2..] == rest && ("~1" + rest)[2..] == rest && ([c] + rest)[1..] == rest;
    assert ("~0" + rest)[1..] == "0" + rest && ("0" + rest)[1..] == rest;
    assert ReplaceCode("0" + rest, '1', '/') == "0" + ReplaceCode(rest, '1', '/');
    assert "~0" + ReplaceCode(rest, '1', '/') == "~" + ("0" + ReplaceCode(rest, '1', '/'));
  }

  /** Any member name survives escaping, and its escaped form holds no slash. */
  lemma {:induction false} EscapeRoundTrip(key: string)
    ensures Unescape(Escape(key)) == key
    ensures '/' !in Escape(key)
  {
    hide ReplaceCode, Escape;
    if key == "" {
      EmptyEscape();
    } else {
      EscapeHead(key);
      EscapeRoundTrip(key[1..]);
      CodeHead(key[0], Escape(key[1..]));
      CodeHead(key[0], ReplaceCode(Escape(key[1..]), '1', '/'));
      assert key == [key[0]] + key[1..];
    }
  }

  lemma EmptyEscape()
    ensures Escape("") == "" && Unescape("") == ""
  {
  }

  // ------------------------------------------------------------------- pointers

  function StepText(step: Step): string {
    match step
    case Key(name) => Escape(name)
    case Index(i) => Decimal(i)
  }

  /** The path `compare_observations` builds on its way down. */
  function Render(site: Site): string {
    if site == [] then "" else "/" + StepText(site[0]) + Render(site[1..])
  }

  /** The text it reports: the whole tree is called "/". */
  function PathText(path: string): string {
    if path == "" then "/" else path
  }

  /** A Python list index: negative ones count from the end. */
  function ListIndex(i: int, length: nat): Option<nat> {
    if 0 <= i < length then Some(i) else if i < 0 <= length + i then Some(length + i) else None
  }

  /** One step of `_pointer` followed by the lookup: the place it names, or nothing where Python raises. */
  function PartStep(data: Json, part: string): Option<Step> {
    match data
    case Obj(m) => if Unescape(part) in m then Some(Key(Unescape(part))) else None
    case Arr(a) =>
      var i := Integer(Unescape(part));
      if i.None? then None
      else
        var at := ListIndex(i.value, |a|);
        if at.None? then None else Some(Index(at.value))
    case _ => None
  }

  lemma PartStepExists(data: Json, part: string)
    requires PartStep(data, part).Some?
    ensures Has(data, PartStep(data, part).value)
  {
    hide Unescape, Integer;
  }

  function Resolve(data: Json, parts: seq<string>): (site: Option<Site>)
    decreases |parts|
  {
    if parts == [] then Some([])
    else
      var step := PartStep(data, parts[0]);
      if step.None? then None
      else
        PartStepExists(data, parts[0]);
        var others := Resolve(Child(data, step.value), parts[1..]);
        if others.None? then None else Some([step.value] + others.value)
  }

  /** The place `owner[key]` of `_pointer(data, path)`; `None` where it, or the lookup, raises. */
  function Locate(data: Json, path: string): Option<Site> {
    if path == "" || path[0] != '/' then None else Resolve(data, Split(path[1..], '/'))
  }

  function StepTexts(site: Site): seq<string> {
    if site == [] then [] else [StepText(site[0])] + StepTexts(site[1..])
  }

  lemma StepTextIsPart(step: Step)
    ensures '/' !in StepText(step)
  {
    hide Digits, Escape;
    if step.Key? {
      EscapeRoundTrip(step.name);
    } else {
      NoSlashInDigits(step.i);
    }
  }

  lemma NoSlashInDigits(n: nat)
    ensures '/' !in Decimal(n)
  {
    hide Digits;
    assert forall i :: 0 <= i < |Digits(n)| ==> IsDigit(Digits(n)[i]);
  }

  /** A text names one step of a kind. */
  lemma OneStepOneText(a: Step, b: Step)
    requires (a.Key? <==> b.Key?) && StepText(a) == StepText(b)
    ensures a == b
  {
    hide Escape, Unescape, Decimal, Integer;
    if a.Key? {
      EscapeRoundTrip(a.name);
      EscapeRoundTrip(b.name);
    } else {
      IntegerReadBack(a.i);
      IntegerReadBack(b.i);
    }
  }

  /** Places written alike have the same texts. */
  lemma SameTexts(p: Site, q: Site)
    requires p != [] && q != [] && Render(p) == Render(q)
    ensures StepTexts(p) == StepTexts(q)
  {
    hide Split, Join, Render;
    RenderedParts(p);
    RenderedParts(q);
    TextsOfSteps(p);
    TextsOfSteps(q);
    assert Render(p)[1..] == Join(StepTexts(p), '/') && Render(q)[1..] == Join(StepTexts(q), '/');
    SplitOfJoin(StepTexts(p), '/');
    SplitOfJoin(StepTexts(q), '/');
  }

  lemma JoinHead(first: string, others: seq<string>)
    ensures Join([first] + others, '/') == if others == [] then first else first + ['/'] + Join(others, '/')
  {
    assert ([first] + others)[1..] == others;
  }

  lemma Slashed(first: string, rest: string)
    ensures "/" + first + ("/" + rest) == "/" + (first + ['/'] + rest)
    ensures "/" + first + "" == "/" + first
  {
  }

  lemma {:induction false} RenderedParts(site: Site)
    requires site != []
    ensures Render(site) == "/" + Join(StepTexts(site), '/')
    decreases |site|
  {
    hide StepText, Join;
    var (first, others) := (StepText(site[0]), StepTexts(site[1..]));
    TextsOfSteps(site[1..]);
    JoinHead(first, others);
    Slashed(first, Join(others, '/'));
    if |site| > 1 {
      RenderedParts(site[1..]);
    }
  }

  lemma {:induction false} TextsOfSteps(site: Site)
    ensures |StepTexts(site)| == |site| && forall i :: 0 <= i < |StepTexts(site)| ==> '/' !in StepTexts(site)[i]
    decreases |site|
  {
    hide StepText;
    if site != [] {
      StepTextIsPart(site[0]);
      TextsOfSteps(site[1..]);
    }
  }

  lemma StepFound(data: Json, step: Step)
    requires Has(data, step)
    ensures PartStep(data, StepText(step)) == Some(step)
  {
    hide Unescape, Escape, Integer, Decimal;
    match step {
      case Key(name) => EscapeRoundTrip(name);
      case Index(i) =>
        IntegerReadBack(i);
        DigitsUnescaped(i);
    }
  }

  lemma DigitsUnescaped(n: nat)
    ensures Unescape(Decimal(n)) == Decimal(n)
  {
    hide Digits;
    PlainUnescaped(Decimal(n), '1', '/');
    PlainUnescaped(Decimal(n), '0', '~');
  }

  lemma {:induction false} PlainUnescaped(text: string, code: char, with: char)
    requires '~' !in text
    ensures ReplaceCode(text, code, with) == text
  {
    if text != "" {
      PlainUnescaped(text[1..], code, with);
      assert text == [text[0]] + text[1..];
    }
  }

  lemma {:induction false} PartsResolve(data: Json, site: Site)
    requires At(data, site).Some?
    ensures Resolve(data, StepTexts(site)) == Some(site)
    decreases |site|
  {
    hide StepText, PartStep, Has;
    if site != [] {
      StepFound(data, site[0]);
      PartsResolve(Child(data, site[0]), site[1..]);
      assert StepTexts(site)[1..] == StepTexts(site[1..]);
      assert site == [site[0]] + site[1..];
    }
  }

  /**
   A reported path leads `_pointer` to the place it was reported for, exactly when that place is not
   the whole tree: "/" names the member with the empty name.
   */
  lemma ReportedPathReaches(data: Json, site: Site)
    requires At(data, site).Some?
    ensures Locate(data, PathText(Render(site))) == Some(site) <==> site != []
  {
    hide Resolve, Split, Join, StepTexts, At, Render;
    if site != [] {
      RenderedParts(site);
      TextsOfSteps(site);
      assert Render(site)[1..] == Join(StepTexts(site), '/');
      SplitOfJoin(StepTexts(site), '/');
      PartsResolve(data, site);
    } else {
      NeverTheRoot(data, "/");
      EmptyRender();
    }
  }

  lemma EmptyRender()
    ensures Render([]) == ""
  {
  }

  lemma NeverTheRoot(data: Json, path: string)
    ensures Locate(data, path) != Some([])
  {
    hide PartStep;
  }

  /** The smallest instance: two different numbers are reported at "/", where neither tree has anything. */
  lemma RootReportLeadsNowhere()
    ensures Locate(Int(1), PathText(Render([]))) == None
    ensures Locate(Obj(map["" := Int(1)]), PathText(Render([]))) == Some([Key("")])
  {
    hide Unescape;
    EmptyEscape();
    assert Split("", '/') == [""];
    assert ("/")[1..] == "";
    var tree := Obj(map["" := Int(1)]);
    assert Resolve(Child(tree, Key("")), [""][1..]) == Some([]);
    assert PartStep(tree, "") == Some(Key(""));
    assert [Key("")] + [] == [Key("")];
    assert Locate(tree, "/") == Resolve(tree, [""]);
  }

  /** The places a pointer can name are places the tree has. */
  lemma {:induction false} ResolvedExists(data: Json, parts: seq<string>)
    requires Resolve(data, parts).Some?
    ensures At(data, Resolve(data, parts).value).Some?
    decreases |parts|
  {
    hide PartStep;
    if parts != [] {
      var step := PartStep(data, parts[0]).value;
      PartStepExists(data, parts[0]);
      ResolvedExists(Child(data, step), parts[1..]);
      var site := Resolve(data, parts).value;
      assert site[1..] == Resolve(Child(data, step), parts[1..]).value;
    }
  }

  /** A list of n elements is indexed from -n to n - 1, both ways round. */
  lemma IndicesOfPython(i: int, n: nat)
    ensures ListIndex(i, n) == if 0 <= i + n < n + n then Some(if i < 0 then n + i else i) else None
    ensures ListIndex(i, n).Some? ==> (ListIndex(i, n).value - i) % n == 0
  {
    if 0 <= i + n < n {
      assert ListIndex(i, n).value - i == n;
    }
  }
}
