/**
 * The Startup page's variable logic: which input a variable is edited with
 * (a select when its rules hold an `in:` rule, a text input otherwise), the
 * select's options, the required test, and `update`, which stores a new
 * value only when it passes the variable's rules.
 */
module Startup {
  import opened Wrappers
  import opened PhpValues
  import opened PhpStrings
  import SV = ServerVariables

  const InPrefix: string := "in:"

  /** The form components the page builds for each variable. */
  datatype Component = SelectComponent | TextInputComponent | OtherComponent(className: string)

  /** An egg variable as the page reaches it through the server. */
  datatype EggVariable = EggVariable(id: nat, name: string, envVariable: string, rules: string)

  /** Laravel's rule engine deciding whether a value passes a rule string, kept opaque. */
  type RuleValidator = (string, Value) -> bool

  /** The `|`-separated segments of a rule string. */
  function Segments(rules: string): seq<string> {
    Explode(rules, '|')
  }

  predicate IsInRule(segment: string) {
    StartsWith(segment, InPrefix)
  }

  /** Some segment of the rules is an `in:` rule. */
  predicate HasInRule(rules: string) {
    var segs := Segments(rules);
    exists i :: 0 <= i < |segs| && IsInRule(segs[i])
  }

  /** The reduce of `shouldHideComponent`: `$result === true && !startsWith($value, 'in:')`, from `true`. */
  function NoInRuleFold(acc: bool, segs: seq<string>): bool
    decreases |segs|
  {
    if |segs| == 0 then acc else NoInRuleFold(acc && !IsInRule(segs[0]), segs[1..])
  }

  /** The fold is true exactly when it starts true and no segment is an `in:` rule. */
  lemma {:induction false} NoInRuleFoldMeansNone(acc: bool, segs: seq<string>)
    ensures NoInRuleFold(acc, segs) <==> acc && forall i :: 0 <= i < |segs| ==> !IsInRule(segs[i])
    decreases |segs|
  {
    if |segs| > 0 {
      NoInRuleFoldMeansNone(acc && !IsInRule(segs[0]), segs[1..]);
      assert forall i :: 1 <= i < |segs| ==> segs[i] == segs[1..][i - 1];
    }
  }

  /**
   * `shouldHideComponent`: the select is hidden when no segment is an `in:`
   * rule, the text input when one is; any other component throws.
   */
  function ShouldHide(rules: string, component: Component): (r: Result<bool, string>)
    ensures component.OtherComponent? <==> r.Failure?
    ensures component == SelectComponent ==> r == Success(!HasInRule(rules))
    ensures component == TextInputComponent ==> r == Success(HasInRule(rules))
  {
    var noInRule := NoInRuleFold(true, Segments(rules));
    NoInRuleFoldMeansNone(true, Segments(rules));
    match component
    case SelectComponent => Success(noInRule)
    case TextInputComponent => Success(!noInRule)
    case OtherComponent(name) => Failure("Component type not supported: " + name)
  }

  /** Segment i is an `in:` rule and no later segment is. */
  predicate IsLastInRule(segs: seq<string>, i: int) {
    0 <= i < |segs| && IsInRule(segs[i]) && forall j :: i < j < |segs| ==> !IsInRule(segs[j])
  }

  /** The reduce of `getSelectOptionsFromRules`: each `in:` segment replaces the accumulator. */
  function LastInRuleFold(acc: string, segs: seq<string>): string
    decreases |segs|
  {
    if |segs| == 0 then acc else LastInRuleFold(if IsInRule(segs[0]) then segs[0] else acc, segs[1..])
  }

  /** The fold ends on the last `in:` segment, or on its start value when there is none. */
  lemma {:induction false} LastInRuleFoldFindsLast(acc: string, segs: seq<string>)
    ensures forall i :: IsLastInRule(segs, i) ==> LastInRuleFold(acc, segs) == segs[i]
    ensures (forall i :: 0 <= i < |segs| ==> !IsInRule(segs[i])) ==> LastInRuleFold(acc, segs) == acc
    decreases |segs|
  {
    if |segs| > 0 {
      var next := if IsInRule(segs[0]) then segs[0] else acc;
      LastInRuleFoldFindsLast(next, segs[1..]);
      forall i | IsLastInRule(segs, i)
        ensures LastInRuleFold(acc, segs) == segs[i]
      {
        if i > 0 {
          assert IsLastInRule(segs[1..], i - 1);
        } else {
          assert forall j :: 0 <= j < |segs[1..]| ==> !IsInRule(segs[1..][j]) by {
            forall j | 0 <= j < |segs[1..]|
              ensures !IsInRule(segs[1..][j])
            {
              assert segs[1..][j] == segs[j + 1];
            }
          }
        }
      }
      if forall i :: 0 <= i < |segs| ==> !IsInRule(segs[i]) {
        assert forall j :: 0 <= j < |segs[1..]| ==> !IsInRule(segs[1..][j]) by {
          forall j | 0 <= j < |segs[1..]|
            ensures !IsInRule(segs[1..][j])
          {
            assert segs[1..][j] == segs[j + 1];
          }
        }
      }
    }
  }

  /** The option texts: the chosen rule after `in:`, split on commas; the trim in `each` is discarded. */
  function OptionItems(rules: string): seq<string> {
    Explode(After(LastInRuleFold("", Segments(rules)), InPrefix), ',')
  }

  /** The option list follows the last `in:` segment; without one it is the single empty option. */
  lemma OptionItemsFromLastInRule(rules: string)
    ensures forall i :: IsLastInRule(Segments(rules), i) ==>
      OptionItems(rules) == Explode(Segments(rules)[i][|InPrefix|..], ',')
    ensures !HasInRule(rules) ==> OptionItems(rules) == [""]
  {
    LastInRuleFoldFindsLast("", Segments(rules));
  }

  /** The position of the first occurrence of x in xs. */
  function FirstIndex(xs: seq<string>, x: string): (k: nat)
    requires x in xs
    ensures k < |xs| && xs[k] == x
    ensures forall m :: 0 <= m < k ==> xs[m] != x
    decreases |xs|
  {
    if xs[0] == x then 0 else 1 + FirstIndex(xs[1..], x)
  }

  /** Entries of a PHP array with string keys, in insertion order. */
  type Options = seq<(string, string)>

  predicate HasKeyIn(opts: Options, key: string) {
    exists i :: 0 <= i < |opts| && opts[i].0 == key
  }

  /**
   * `mapWithKeys(fn ($value) => [$value => $value])`: each item keyed by
   * itself; a repeated item overwrites its own entry and keeps its place.
   */
  function MapToSelf(items: seq<string>): (opts: Options)
    ensures forall i :: 0 <= i < |opts| ==> opts[i].0 == opts[i].1
    ensures forall i :: 0 <= i < |opts| ==> opts[i].0 in items
    ensures forall i, j :: 0 <= i < j < |opts| ==> opts[i].0 != opts[j].0
    decreases |items|
  {
    if |items| == 0 then []
    else
      var init := items[..|items| - 1];
      var last := items[|items| - 1];
      var opts := MapToSelf(init);
      if HasKeyIn(opts, last) then opts else opts + [(last, last)]
  }

  /** Every item has an entry. */
  lemma {:induction false} MapToSelfCovers(items: seq<string>)
    ensures forall j :: 0 <= j < |items| ==> HasKeyIn(MapToSelf(items), items[j])
    decreases |items|
  {
    if |items| > 0 {
      var init := items[..|items| - 1];
      var last := items[|items| - 1];
      MapToSelfCovers(init);
      var opts := MapToSelf(init);
      assert MapToSelf(items) == if HasKeyIn(opts, last) then opts else opts + [(last, last)];
      forall j | 0 <= j < |items|
        ensures HasKeyIn(MapToSelf(items), items[j])
      {
        if j < |items| - 1 {
          assert items[j] == init[j];
          var i :| 0 <= i < |opts| && opts[i].0 == init[j];
          assert MapToSelf(items)[i] == opts[i];
        } else if !HasKeyIn(opts, last) {
          assert MapToSelf(items)[|opts|].0 == last;
        }
      }
    }
  }

  /** Entries come in the order of their items' first occurrences. */
  lemma {:induction false} MapToSelfOrdered(items: seq<string>)
    ensures forall i, j :: 0 <= i < j < |MapToSelf(items)| ==>
      FirstIndex(items, MapToSelf(items)[i].0) < FirstIndex(items, MapToSelf(items)[j].0)
    decreases |items|
  {
    if |items| > 0 {
      var init := items[..|items| - 1];
      var last := items[|items| - 1];
      MapToSelfOrdered(init);
      MapToSelfCovers(init);
      var opts := MapToSelf(init);
      assert items == init + [last];
      forall i | 0 <= i < |opts|
        ensures FirstIndex(items, opts[i].0) == FirstIndex(init, opts[i].0)
      {
        FirstIndexOfPrefix(init, last, opts[i].0);
      }
      if !HasKeyIn(opts, last) {
        assert last !in init;
        assert FirstIndex(items, last) == |items| - 1;
      }
    }
  }

  /** Appending an item leaves the first position of an item already present unchanged. */
  lemma FirstIndexOfPrefix(init: seq<string>, last: string, x: string)
    requires x in init
    ensures x in init + [last] && FirstIndex(init + [last], x) == FirstIndex(init, x)
  {
    var k := FirstIndex(init, x);
    var items := init + [last];
    assert items[k] == x;
    var k' := FirstIndex(items, x);
    assert forall m :: 0 <= m <= k ==> items[m] == init[m];
  }

  /** `getSelectOptionsFromRules`: the options of the select for a rule string. */
  function SelectOptions(rules: string): (opts: Options)
    ensures forall i :: 0 <= i < |opts| ==> opts[i].0 == opts[i].1
    ensures forall i :: 0 <= i < |opts| ==> opts[i].0 in OptionItems(rules)
    ensures forall i, j :: 0 <= i < j < |opts| ==> opts[i].0 != opts[j].0
    ensures forall j :: 0 <= j < |OptionItems(rules)| ==> HasKeyIn(opts, OptionItems(rules)[j])
  {
    MapToSelfCovers(OptionItems(rules));
    MapToSelf(OptionItems(rules))
  }

  /** The required test: `in_array('required', explode('|', $rules))`. */
  predicate IsRequired(rules: string) {
    "required" in Segments(rules)
  }

  /** A rule string joined from segments is required exactly when one segment is the word `required`. */
  lemma RequiredIffSegment(segs: seq<string>)
    requires |segs| >= 1
    requires forall i :: 0 <= i < |segs| ==> '|' !in segs[i]
    ensures IsRequired(Implode(segs, '|')) <==> "required" in segs
  {
    ImplodeExplode(segs, '|');
  }

  /** The first of the server's variables with the environment name: `where('env_variable', $var)->first()`. */
  function FindVariable(vars: seq<EggVariable>, env: string): (r: Option<nat>)
    ensures r.Some? ==> r.value < |vars| && vars[r.value].envVariable == env
    ensures r.Some? ==> forall j :: 0 <= j < r.value ==> vars[j].envVariable != env
    ensures r.None? ==> forall j :: 0 <= j < |vars| ==> vars[j].envVariable != env
    decreases |vars|
  {
    if |vars| == 0 then None
    else if vars[0].envVariable == env then Some(0)
    else
      match FindVariable(vars[1..], env)
      case None => None
      case Some(i) => Some(i + 1)
  }

  /** How `update` ends. */
  datatype UpdateOutcome =
    | Saved             // the row is upserted; a success notification follows
    | Rejected          // the value fails the rules; a failure notification follows
    | UnknownVariable   // no variable has the name: reading a property of null throws

  datatype UpdateResult = UpdateResult(outcome: UpdateOutcome, table: SV.Table)

  /**
   * `update($state, $var, $server)` against the server's variables and the
   * variable table at time `now`.
   */
  function Update(
    table: SV.Table, serverId: nat, vars: seq<EggVariable>, env: string,
    state: Value, passes: RuleValidator, now: nat): (r: UpdateResult)
    ensures r.outcome == UnknownVariable <==> forall j :: 0 <= j < |vars| ==> vars[j].envVariable != env
    ensures r.outcome != Saved ==> r.table == table
    ensures r.outcome == Rejected <==>
      FindVariable(vars, env).Some? && !passes(vars[FindVariable(vars, env).value].rules, state)
    ensures r.outcome == Saved ==>
      var v := vars[FindVariable(vars, env).value];
      && v.envVariable == env
      && passes(v.rules, state)
      && SV.Lookup(r.table, serverId, v.id) == Some(if state.Null? then Str("") else state)
      && forall s: nat, id: nat :: !(s == serverId && id == v.id) ==> SV.Lookup(r.table, s, id) == SV.Lookup(table, s, id)
  {
    match FindVariable(vars, env)
    case None => UpdateResult(UnknownVariable, table)
    case Some(i) =>
      var variable := vars[i];
      if !passes(variable.rules, state) then UpdateResult(Rejected, table)
      else UpdateResult(Saved, SV.Upsert(table, serverId, variable.id, OrElse(state, Str("")), now))
  }

  /** Two rules joined by a bar split back into them. */
  lemma TwoSegments(a: string, b: string)
    requires '|' !in a && '|' !in b
    ensures Segments(a + "|" + b) == [a, b]
  {
    var segs := [a, b];
    assert Implode(segs[1..], '|') == b;
    assert Implode(segs, '|') == a + "|" + b;
    ImplodeExplode(segs, '|');
  }

  /** A rule that does not start with `i` is no `in:` rule. */
  lemma NotInRule(segment: string)
    requires |segment| > 0 && segment[0] != 'i'
    ensures !IsInRule(segment)
  {
    if |segment| >= |InPrefix| {
      assert segment[..|InPrefix|][0] != InPrefix[0];
    }
  }

  /** A plain rule followed by an `in:` rule: the select shows, with the second rule's list as its options. */
  lemma PlainThenInRule(a: string, list: string)
    requires '|' !in a && '|' !in list
    requires |a| > 0 && a[0] != 'i'
    ensures Segments(a + "|" + (InPrefix + list)) == [a, InPrefix + list]
    ensures HasInRule(a + "|" + (InPrefix + list))
    ensures OptionItems(a + "|" + (InPrefix + list)) == Explode(list, ',')
  {
    var b := InPrefix + list;
    assert '|' !in b by {
      assert forall i :: 0 <= i < |b| ==> b[i] == if i < |InPrefix| then InPrefix[i] else list[i - |InPrefix|];
    }
    TwoSegments(a, b);
    assert b[..|InPrefix|] == InPrefix;
    NotInRule(a);
    assert IsLastInRule([a, b], 1);
    OptionItemsFromLastInRule(a + "|" + b);
    assert b[|InPrefix|..] == list;
  }

  lemma ExampleExplodeOptions()
    ensures Explode("a, b,a", ',') == ["a", " b", "a"]
  {
    var items := ["a", " b", "a"];
    assert Implode(items[2..], ',') == "a";
    assert Implode(items[1..], ',') == " b,a";
    assert Implode(items, ',') == "a, b,a";
    ImplodeExplode(items, ',');
  }

  /** A repeated item keeps its first place. */
  lemma ExampleMapToSelf()
    ensures MapToSelf(["a", " b", "a"]) == [("a", "a"), (" b", " b")]
  {
    var items := ["a", " b", "a"];
    assert items[..2][..1] == ["a"];
    assert items[..2] == ["a", " b"];
    assert MapToSelf(["a"]) == [("a", "a")];
    assert MapToSelf(items[..2]) == [("a", "a"), (" b", " b")];
    assert MapToSelf(items[..2])[0].0 == "a";
  }

  /** The rule string `required|in:a, b,a`, a required choice among "a" and " b". */
  lemma ExampleRules(rules: string)
    requires rules == "required|in:a, b,a"
    ensures Segments(rules) == ["required", "in:a, b,a"]
    ensures HasInRule(rules)
    ensures OptionItems(rules) == ["a", " b", "a"]
  {
    var list := "a, b,a";
    assert InPrefix + list == "in:a, b,a";
    assert rules == "required" + "|" + (InPrefix + list);
    PlainThenInRule("required", list);
    ExampleExplodeOptions();
  }

  /** For `required|in:a, b,a`: a required select whose options keep the space and drop the repeat. */
  lemma ExampleSelect(rules: string)
    requires rules == "required|in:a, b,a"
    ensures ShouldHide(rules, SelectComponent) == Success(false)
    ensures ShouldHide(rules, TextInputComponent) == Success(true)
    ensures IsRequired(rules)
    ensures SelectOptions(rules) == [("a", "a"), (" b", " b")]
  {
    ExampleRules(rules);
    ExampleMapToSelf();
  }

  /** Without an `in:` rule the select offers the single empty option and is hidden. */
  lemma ExampleNoInRule(rules: string)
    requires rules == "required|string"
    ensures SelectOptions(rules) == [("", "")]
    ensures ShouldHide(rules, SelectComponent) == Success(true)
  {
    var a, b := "required", "string";
    assert rules == a + "|" + b;
    TwoSegments(a, b);
    NotInRule(a);
    NotInRule(b);
    var segs := [a, b];
    assert forall i :: 0 <= i < |segs| ==> !IsInRule(segs[i]);
    OptionItemsFromLastInRule(rules);
    assert MapToSelf([""]) == [("", "")];
  }

  /** Only the whole word counts as required. */
  lemma ExampleRequiredIfIsNotRequired(rules: string)
    requires rules == "nullable|required_if:a,b"
    ensures !IsRequired(rules)
  {
    var a, b := "nullable", "required_if:a,b";
    assert rules == a + "|" + b;
    TwoSegments(a, b);
    assert "required" != a by { assert "required"[0] != a[0]; }
    assert "required" != b by { assert |"required"| != |b|; }
  }
}
