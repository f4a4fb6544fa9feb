/**
 * The `attrfilter(attribute, value, expr)` query function: of the targets
 * `expr` evaluates to, keep those whose attribute `attribute` holds, anywhere
 * inside its possibly nested value, a non-container value whose string form
 * is exactly `value`.
 *
 * The evaluator of the sub-expression is a parameter of `Eval`; the attribute
 * traversal is `QueryEnvironment.FilterAttributeContents`.
 */
module AttrFilterFunction {
  import opened QueryEnvironment
  import CaseFormat

  // ---------------------------------------------------------------------------
  // The function's descriptor
  // ---------------------------------------------------------------------------

  /** The declared type of each positional argument: attribute, value, expression. */
  const ARGUMENT_TYPES: seq<ArgumentType> := [Word, Word, Expression]

  /** The name under which the function is called in query text: a single lower-case word. */
  function GetName(): (r: string)
    ensures r == "attrfilter"
    ensures r != [] && forall i :: 0 <= i < |r| ==> CaseFormat.IsAsciiLower(r[i])
  {
    "attrfilter"
  }

  /** How many arguments every call must supply: all of the declared ones. */
  function GetMandatoryArguments(): (r: nat)
    ensures r == |GetArgumentTypes()|
  {
    3
  }

  /** Two words, the attribute and the value, then the expression to filter. */
  function GetArgumentTypes(): (r: seq<ArgumentType>)
    ensures |r| == 3
    ensures forall i :: 0 <= i < |r| - 1 ==> r[i] == Word
    ensures r[|r| - 1] == Expression
  {
    ARGUMENT_TYPES
  }

  /**
   * The descriptor is consistent: every declared argument is mandatory, the
   * two leading ones are words and the last one, the one `Eval` evaluates,
   * is an expression.
   */
  lemma SignatureIsConsistent()
    ensures GetName() == "attrfilter"
    ensures |GetArgumentTypes()| == GetMandatoryArguments() == 3
    ensures GetArgumentTypes()[0] == Word && GetArgumentTypes()[1] == Word
    ensures GetArgumentTypes()[GetMandatoryArguments() - 1] == Expression
  {
  }

  /** `args` has exactly the declared arguments, each of its declared type. */
  predicate MatchesSignature(args: seq<Argument>) {
    |args| == GetMandatoryArguments() &&
    forall i :: 0 <= i < |args| ==> args[i].Type() == GetArgumentTypes()[i]
  }

  // ---------------------------------------------------------------------------
  // Reading the arguments
  // ---------------------------------------------------------------------------

  /** What `Eval` takes from its arguments: the internal attribute name, the value, the expression. */
  datatype FilterArguments = FilterArguments(attribute: string, value: string, expression: QueryExpression)

  /**
   * The arguments as `Eval` reads them, in its order: the last argument as
   * an expression, the first as a word (converted from lower_underscore to
   * lowerCamel), the second as a word. A missing argument or one of the
   * wrong variant is an error.
   */
  function ReadArguments(args: seq<Argument>): (r: Result<FilterArguments>)
    ensures r.Ok? <==>
      |args| >= 2 && args[|args| - 1].Type() == Expression &&
      args[0].Type() == Word && args[1].Type() == Word
    ensures r.Ok? ==>
      r.value == FilterArguments(CaseFormat.ToLowerCamel(args[0].word), args[1].word, args[|args| - 1].expression)
    ensures args == [] ==> r == Err(ArgumentIndexOutOfBounds(-1, 0))
    ensures args != [] && args[|args| - 1].Type() != Expression ==>
      r == Err(ArgumentTypeMismatch(Expression, args[|args| - 1].Type()))
  {
    var last :- ArgumentAt(args, |args| - 1);
    var expression :- GetExpression(last);
    var name :- GetWord(args[0]);
    var second :- ArgumentAt(args, 1);
    var value :- GetWord(second);
    Ok(FilterArguments(CaseFormat.ToLowerCamel(name), value, expression))
  }

  /**
   * Arguments that match the declared signature are always read
   * successfully: the attribute is argument 0, the value argument 1 and the
   * expression argument 2.
   */
  lemma SignatureArgumentsAreRead(args: seq<Argument>)
    requires MatchesSignature(args)
    ensures ReadArguments(args) ==
      Ok(FilterArguments(CaseFormat.ToLowerCamel(args[0].word), args[1].word, args[2].expression))
  {
    assert args[0].Type() == Word && args[1].Type() == Word && args[2].Type() == Expression;
  }

  /**
   * `attrfilter(x, y)` with the expression missing is rejected: its last
   * argument is read as the expression and is a word.
   */
  lemma MissingExpressionRejected(x: string, y: string)
    ensures ReadArguments([WordArgument(x), WordArgument(y)]) == Err(ArgumentTypeMismatch(Expression, Word))
  {
  }

  // ---------------------------------------------------------------------------
  // The leaf predicate
  // ---------------------------------------------------------------------------

  /**
   * Accepts `input` when it is not a collection or a mapping and its string
   * form equals `value` exactly (case-sensitive, no trimming). Containers are
   * rejected without looking at their string form.
   */
  predicate LeafPredicate(value: string, input: AttrValue)
    ensures LeafPredicate(value, input) <==> input == Scalar(value)
  {
    !(input.Sequence? || input.Mapping?) && value == Render(input)
  }

  /** The predicate `Eval` hands to the environment, built once per call. */
  function PredicateFor(value: string): (p: AttrValue -> bool)
    ensures forall input :: p(input) <==> input == Scalar(value)
  {
    input => LeafPredicate(value, input)
  }

  /** A container never matches, not even a value equal to its own string form. */
  lemma ContainersNeverMatch(value: string, v: AttrValue)
    requires v.IsContainer()
    ensures !LeafPredicate(value, v)
    ensures !LeafPredicate(Render(v), v)
  {
  }

  /** A scalar matches exactly the value equal to its text; case and whitespace count. */
  lemma ScalarsMatchExactly()
    ensures LeafPredicate("PUBLIC", Scalar("PUBLIC"))
    ensures !LeafPredicate("public", Scalar("PUBLIC"))
    ensures !LeafPredicate("PUBLIC", Scalar(" PUBLIC"))
    ensures !LeafPredicate("[PUBLIC]", Sequence([Scalar("PUBLIC")]))
  {
    assert Render(Sequence([Scalar("PUBLIC")])) == "[PUBLIC]";
  }

  // ---------------------------------------------------------------------------
  // Which targets match
  // ---------------------------------------------------------------------------

  /** The attribute contents the environment returns for `target` under the leaf predicate. */
  function MatchingContents(env: Environment, target: QueryTarget, attr: string, value: string): (r: set<AttrValue>)
    ensures r == {} || r == {Scalar(value)}
    ensures r == {Scalar(value)} <==>
      GetAttribute(env, target, attr).Some? && Scalar(value) in SubValues(GetAttribute(env, target, attr).value)
  {
    FilterAttributeContents(env, target, attr, PredicateFor(value))
  }

  /** `target` is kept: the environment found at least one matching leaf. */
  predicate TargetMatches(env: Environment, target: QueryTarget, attr: string, value: string)
    ensures TargetMatches(env, target, attr, value) <==>
      GetAttribute(env, target, attr).Some? && Scalar(value) in SubValues(GetAttribute(env, target, attr).value)
  {
    MatchingContents(env, target, attr, value) != {}
  }

  /** A scalar is reached by the traversal exactly when its text is one of the leaf texts. */
  lemma {:induction false} ScalarReachableIffLeafText(v: AttrValue, s: string)
    ensures Scalar(s) in SubValues(v) <==> s in LeafTexts(v)
    decreases v
  {
    match v
    case Scalar(_) =>
    case Sequence(items) =>
      forall i | 0 <= i < |items| ensures Scalar(s) in SubValues(items[i]) <==> s in LeafTexts(items[i]) {
        ScalarReachableIffLeafText(items[i], s);
      }
      if Scalar(s) in SubValues(v) {
        var i, x :| 0 <= i < |items| && x in SubValues(items[i]) && x == Scalar(s);
        assert s in LeafTexts(items[i]);
      }
      if s in LeafTexts(v) {
        var i :| 0 <= i < |items| && s in LeafTexts(items[i]);
        assert Scalar(s) in SubValues(items[i]);
      }
    case Mapping(entries) =>
      forall i | 0 <= i < |entries|
        ensures Scalar(s) in SubValues(entries[i].0) <==> s in LeafTexts(entries[i].0)
        ensures Scalar(s) in SubValues(entries[i].1) <==> s in LeafTexts(entries[i].1)
      {
        ScalarReachableIffLeafText(entries[i].0, s);
        ScalarReachableIffLeafText(entries[i].1, s);
      }
      if Scalar(s) in SubValues(v) {
        var i, x :| 0 <= i < |entries| && x in SubValues(entries[i].0) + SubValues(entries[i].1) && x == Scalar(s);
        assert s in LeafTexts(entries[i].0) + LeafTexts(entries[i].1);
      }
      if s in LeafTexts(v) {
        var i :| 0 <= i < |entries| && s in LeafTexts(entries[i].0) + LeafTexts(entries[i].1);
        assert Scalar(s) in SubValues(entries[i].0) + SubValues(entries[i].1);
      }
  }

  /**
   * A target matches exactly when it declares the attribute and `value` is
   * the text of some scalar leaf anywhere inside the attribute's value.
   */
  lemma TargetMatchesIffLeafText(env: Environment, target: QueryTarget, attr: string, value: string)
    ensures TargetMatches(env, target, attr, value) <==>
      GetAttribute(env, target, attr).Some? && value in LeafTexts(GetAttribute(env, target, attr).value)
  {
    if GetAttribute(env, target, attr).Some? {
      ScalarReachableIffLeafText(GetAttribute(env, target, attr).value, value);
    }
  }

  /** A target whose attribute is a collection matches when any element contains a matching leaf. */
  lemma MatchInsideSequence(env: Environment, target: QueryTarget, attr: string, items: seq<AttrValue>, i: nat, value: string)
    requires GetAttribute(env, target, attr) == Some(Sequence(items))
    requires i < |items| && value in LeafTexts(items[i])
    ensures TargetMatches(env, target, attr, value)
  {
    assert value in LeafTexts(Sequence(items));
    TargetMatchesIffLeafText(env, target, attr, value);
  }

  /** A target whose attribute is a mapping matches when any key or value contains a matching leaf. */
  lemma MatchInsideMapping(
    env: Environment, target: QueryTarget, attr: string, entries: seq<(AttrValue, AttrValue)>, i: nat, value: string)
    requires GetAttribute(env, target, attr) == Some(Mapping(entries))
    requires i < |entries| && value in LeafTexts(entries[i].0) + LeafTexts(entries[i].1)
    ensures TargetMatches(env, target, attr, value)
  {
    assert value in LeafTexts(Mapping(entries));
    TargetMatchesIffLeafText(env, target, attr, value);
  }

  /** An empty collection contributes no match, and looking into it is no error. */
  lemma EmptySequenceNeverMatches(env: Environment, target: QueryTarget, attr: string, value: string)
    requires GetAttribute(env, target, attr) == Some(Sequence([]))
    ensures !TargetMatches(env, target, attr, value)
  {
    TargetMatchesIffLeafText(env, target, attr, value);
  }

  /** A target that does not declare the attribute never matches. */
  lemma MissingAttributeNeverMatches(env: Environment, target: QueryTarget, attr: string, value: string)
    requires GetAttribute(env, target, attr).None?
    ensures !TargetMatches(env, target, attr, value)
  {
  }

  // ---------------------------------------------------------------------------
  // The result set
  // ---------------------------------------------------------------------------

  predicate NoDuplicates(s: seq<QueryTarget>) {
    forall i, j :: 0 <= i < j < |s| ==> s[i] != s[j]
  }

  /**
   * `ImmutableSet.Builder.add`: a target already present is ignored,
   * otherwise it is appended, so insertion order is first-occurrence order.
   */
  function BuilderAdd(s: seq<QueryTarget>, t: QueryTarget): (r: seq<QueryTarget>)
    ensures t in r
    ensures forall u :: u in r <==> u in s || u == t
    ensures s <= r
    ensures NoDuplicates(s) ==> NoDuplicates(r)
  {
    if t in s then s else s + [t]
  }

  /**
   * The result `Eval` builds from the evaluated targets `ts`: each target that
   * matches is added to the builder, in order.
   */
  function Selected(env: Environment, attr: string, value: string, ts: seq<QueryTarget>): (r: seq<QueryTarget>)
    ensures |r| <= |ts|
  {
    if ts == [] then []
    else
      var prev := Selected(env, attr, value, ts[..|ts| - 1]);
      var t := ts[|ts| - 1];
      if TargetMatches(env, t, attr, value) then BuilderAdd(prev, t) else prev
  }

  /**
   * Exactly the matching targets of the input are kept: the result is a
   * subset of the input, and no matching target is lost.
   */
  lemma {:induction false} SelectedMembers(env: Environment, attr: string, value: string, ts: seq<QueryTarget>)
    ensures forall t :: t in Selected(env, attr, value, ts) <==> t in ts && TargetMatches(env, t, attr, value)
  {
    if ts != [] {
      var p := ts[..|ts| - 1];
      SelectedMembers(env, attr, value, p);
      assert ts == p + [ts[|ts| - 1]];
    }
  }

  /** The result never holds a target twice. */
  lemma {:induction false} SelectedDistinct(env: Environment, attr: string, value: string, ts: seq<QueryTarget>)
    ensures NoDuplicates(Selected(env, attr, value, ts))
  {
    if ts != [] {
      SelectedDistinct(env, attr, value, ts[..|ts| - 1]);
    }
  }

  /** The result only grows by appending: the result for a prefix of the input is a prefix of it. */
  lemma {:induction false} SelectedGrowsByAppending(env: Environment, attr: string, value: string, ts: seq<QueryTarget>, k: nat)
    requires k <= |ts|
    ensures Selected(env, attr, value, ts[..k]) <= Selected(env, attr, value, ts)
    decreases |ts|
  {
    if k < |ts| {
      var p := ts[..|ts| - 1];
      assert p[..k] == ts[..k];
      SelectedGrowsByAppending(env, attr, value, p, k);
    } else {
      assert ts[..k] == ts;
    }
  }

  /** The position of the first occurrence of `t` in `s`. */
  function FirstIndex(s: seq<QueryTarget>, t: QueryTarget): (r: nat)
    requires t in s
    ensures r < |s| && s[r] == t && t !in s[..r]
  {
    if s[0] == t then 0 else 1 + FirstIndex(s[1..], t)
  }

  lemma {:induction false} FirstIndexInPrefix(s: seq<QueryTarget>, n: nat, t: QueryTarget)
    requires n <= |s| && t in s[..n]
    ensures FirstIndex(s, t) == FirstIndex(s[..n], t)
  {
    var j := FirstIndex(s[..n], t);
    assert s[..n][j] == s[j];
  }

  /** Every element of `r` occurs in `ts`, and they come in the order of their first occurrences there. */
  predicate InFirstOccurrenceOrder(r: seq<QueryTarget>, ts: seq<QueryTarget>) {
    forall i, j :: 0 <= i < j < |r| ==> FirstOccursBefore(ts, r[i], r[j])
  }

  /** `x` and `y` both occur in `ts`, and `x` occurs first. */
  predicate FirstOccursBefore(ts: seq<QueryTarget>, x: QueryTarget, y: QueryTarget) {
    x in ts && y in ts && FirstIndex(ts, x) < FirstIndex(ts, y)
  }

  /** One step of the filter: the last target is either ignored or appended as a new element. */
  lemma SelectedLastStep(env: Environment, attr: string, value: string, ts: seq<QueryTarget>)
    requires ts != []
    ensures var p, t := ts[..|ts| - 1], ts[|ts| - 1];
      var prev := Selected(env, attr, value, p);
      Selected(env, attr, value, ts) == prev ||
      (Selected(env, attr, value, ts) == prev + [t] && t !in p)
  {
    SelectedMembers(env, attr, value, ts[..|ts| - 1]);
  }

  /** The kept targets appear in the order of their first occurrence in the input. */
  lemma {:induction false} SelectedKeepsFirstOccurrenceOrder(
    env: Environment, attr: string, value: string, ts: seq<QueryTarget>)
    ensures InFirstOccurrenceOrder(Selected(env, attr, value, ts), ts)
  {
    if ts != [] {
      var n := |ts| - 1;
      var p, t := ts[..n], ts[n];
      var r, prev := Selected(env, attr, value, ts), Selected(env, attr, value, p);
      SelectedLastStep(env, attr, value, ts);
      SelectedKeepsFirstOccurrenceOrder(env, attr, value, p);
      SelectedMembers(env, attr, value, p);
      forall i, j | 0 <= i < j < |r|
        ensures FirstOccursBefore(ts, r[i], r[j])
      {
        assert r[i] == prev[i] && prev[i] in p;
        FirstIndexInPrefix(ts, n, prev[i]);
        if j < |prev| {
          assert r[j] == prev[j] && prev[j] in p;
          FirstIndexInPrefix(ts, n, prev[j]);
          assert FirstOccursBefore(p, prev[i], prev[j]);
        } else {
          assert r[j] == t && t !in ts[..n];
        }
      }
    }
  }

  /** On a duplicate-free input whose targets all match, the filter keeps everything in place. */
  lemma {:induction false} SelectedKeepsMatchingInput(env: Environment, attr: string, value: string, ts: seq<QueryTarget>)
    requires NoDuplicates(ts)
    requires forall t :: t in ts ==> TargetMatches(env, t, attr, value)
    ensures Selected(env, attr, value, ts) == ts
  {
    if ts != [] {
      var p := ts[..|ts| - 1];
      SelectedKeepsMatchingInput(env, attr, value, p);
      assert ts[|ts| - 1] !in p;
      assert p + [ts[|ts| - 1]] == ts;
    }
  }

  /** Filtering the result again on the same attribute and value changes nothing. */
  lemma SelectedIdempotent(env: Environment, attr: string, value: string, ts: seq<QueryTarget>)
    ensures Selected(env, attr, value, Selected(env, attr, value, ts)) == Selected(env, attr, value, ts)
  {
    SelectedDistinct(env, attr, value, ts);
    SelectedMembers(env, attr, value, ts);
    SelectedKeepsMatchingInput(env, attr, value, Selected(env, attr, value, ts));
  }

  /** One iteration of the filter loop: the target at position `i` is added when it matches. */
  lemma SelectedStep(env: Environment, attr: string, value: string, ts: seq<QueryTarget>, i: nat)
    requires i < |ts|
    ensures Selected(env, attr, value, ts[..i + 1]) ==
      if MatchingContents(env, ts[i], attr, value) != {}
      then BuilderAdd(Selected(env, attr, value, ts[..i]), ts[i])
      else Selected(env, attr, value, ts[..i])
  {
    assert ts[..i + 1][..i] == ts[..i];
  }

  /** What the result promises: no duplicates, exactly the matching input targets, first-occurrence order. */
  lemma SelectedProperties(env: Environment, attr: string, value: string, ts: seq<QueryTarget>)
    ensures var r := Selected(env, attr, value, ts);
      && NoDuplicates(r)
      && (forall t :: t in r <==> t in ts && TargetMatches(env, t, attr, value))
      && InFirstOccurrenceOrder(r, ts)
  {
    SelectedMembers(env, attr, value, ts);
    SelectedDistinct(env, attr, value, ts);
    SelectedKeepsFirstOccurrenceOrder(env, attr, value, ts);
  }

  // ---------------------------------------------------------------------------
  // Evaluation
  // ---------------------------------------------------------------------------

  /**
   * `attrfilter(attribute, value, expr)`: read the arguments, evaluate `expr`
   * with `evaluate`, and keep each resulting target whose attribute contents
   * include a leaf equal to `value`. Argument and evaluation errors are
   * returned unchanged and no targets are produced.
   */
  method Eval(evaluate: QueryExpression -> Result<seq<QueryTarget>>, env: Environment, args: seq<Argument>)
    returns (r: Result<seq<QueryTarget>>)
    ensures ReadArguments(args).Err? ==> r == Err(ReadArguments(args).error)
    ensures ReadArguments(args).Ok? && evaluate(ReadArguments(args).value.expression).Err? ==>
      r == Err(evaluate(ReadArguments(args).value.expression).error)
    ensures ReadArguments(args).Ok? && evaluate(ReadArguments(args).value.expression).Ok? ==>
      var a := ReadArguments(args).value;
      var ts := evaluate(a.expression).value;
      && r == Ok(Selected(env, a.attribute, a.value, ts))
      && NoDuplicates(r.value)
      && (forall t :: t in r.value <==> t in ts && TargetMatches(env, t, a.attribute, a.value))
      && InFirstOccurrenceOrder(r.value, ts)
  {
    var a :- ReadArguments(args);
    var leafPredicate := PredicateFor(a.value);
    var targets :- evaluate(a.expression);
    var result: seq<QueryTarget> := [];
    for i := 0 to |targets|
      invariant result == Selected(env, a.attribute, a.value, targets[..i])
    {
      var matchingObjects := FilterAttributeContents(env, targets[i], a.attribute, leafPredicate);
      assert matchingObjects == MatchingContents(env, targets[i], a.attribute, a.value);
      SelectedStep(env, a.attribute, a.value, targets, i);
      if matchingObjects != {} {
        result := BuilderAdd(result, targets[i]);
      }
    }
    assert targets[..|targets|] == targets;
    SelectedProperties(env, a.attribute, a.value, targets);
    r := Ok(result);
  }

  // ---------------------------------------------------------------------------
  // Scenarios
  // ---------------------------------------------------------------------------

  /** `attrfilter(compiler_flags, -noassert, //:x)` where `//:x` has `compiler_flags = []` keeps nothing. */
  lemma EmptyFlagsScenario(x: QueryTarget, name: string)
    requires name == "compiler_flags"
    ensures var env := Environment(map[x := map["compilerFlags" := Sequence([])]]);
      Selected(env, CaseFormat.ToLowerCamel(name), "-noassert", [x]) == []
  {
    CaseFormat.CompilerFlagsExample(name);
    var env := Environment(map[x := map["compilerFlags" := Sequence([])]]);
    EmptySequenceNeverMatches(env, x, "compilerFlags", "-noassert");
    assert [x][..0] == [];
  }

  /**
   * `attrfilter(deps, //:a, //:x)` where `//:x` has
   * `deps = {"main": ["//:a"], "test": ["//:b"]}` keeps `//:x`: the match is
   * found through the mapping and the inner list.
   */
  lemma NestedDepsScenario(x: QueryTarget)
    ensures var deps := Mapping([(Scalar("main"), Sequence([Scalar("//:a")])),
                                 (Scalar("test"), Sequence([Scalar("//:b")]))]);
      var env := Environment(map[x := map["deps" := deps]]);
      Selected(env, "deps", "//:a", [x]) == [x]
  {
    var inner := Sequence([Scalar("//:a")]);
    var deps := Mapping([(Scalar("main"), inner), (Scalar("test"), Sequence([Scalar("//:b")]))]);
    var env := Environment(map[x := map["deps" := deps]]);
    assert "//:a" in LeafTexts(inner.items[0]);
    assert "//:a" in LeafTexts(inner);
    MatchInsideMapping(env, x, "deps", deps.entries, 0, "//:a");
    assert [x][..0] == [];
  }
}
