/**
 * The values a query function works with: targets, arguments, attribute
 * values, and the part of the query environment that `attrfilter` consults.
 *
 * The environment itself (the target graph and the type coercers that walk
 * attribute values) is not part of this model; `FilterAttributeContents`
 * below states the behaviour `attrfilter` relies on: every sub-value of the
 * attribute (the value itself, every element of a collection, every key and
 * every value of a mapping, recursively) is offered to the predicate, and the
 * ones it accepts are returned.
 */
module QueryEnvironment {

  datatype Option<+T> = None | Some(value: T)

  /** An opaque, unique build-target identifier such as `//path:name`. */
  datatype QueryTarget = QueryTarget(name: string)

  /** A parsed query sub-expression; its structure is not part of this model. */
  datatype QueryExpression = QueryExpression(text: string)

  /** The declared type of one positional argument of a query function. */
  datatype ArgumentType = Word | Integer | Expression

  /** One parsed argument, tagged with the type it holds. */
  datatype Argument =
    | WordArgument(word: string)
    | IntegerArgument(integer: int)
    | ExpressionArgument(expression: QueryExpression)
  {
    function Type(): ArgumentType {
      match this
      case WordArgument(_) => Word
      case IntegerArgument(_) => Integer
      case ExpressionArgument(_) => Expression
    }
  }

  /** The failures a query function can report. */
  datatype QueryError =
    | ArgumentIndexOutOfBounds(index: int, size: nat)
    | ArgumentTypeMismatch(expected: ArgumentType, actual: ArgumentType)
    | EvaluationFailed(message: string)

  /** The outcome of an operation that may fail; usable with `:-`. */
  datatype Result<+T> = Ok(value: T) | Err(error: QueryError)
  {
    predicate IsFailure() {
      Err?
    }

    function PropagateFailure<U>(): Result<U>
      requires Err?
    {
      Err(error)
    }

    function Extract(): T
      requires Ok?
    {
      value
    }
  }

  /** Reads an argument as a word; any other variant is a type mismatch. */
  function GetWord(a: Argument): (r: Result<string>)
    ensures r.Ok? <==> a.Type() == Word
    ensures r.Ok? ==> r.value == a.word
    ensures r.Err? ==> r.error == ArgumentTypeMismatch(Word, a.Type())
  {
    match a
    case WordArgument(w) => Ok(w)
    case _ => Err(ArgumentTypeMismatch(Word, a.Type()))
  }

  /** Reads an argument as a sub-expression; any other variant is a type mismatch. */
  function GetExpression(a: Argument): (r: Result<QueryExpression>)
    ensures r.Ok? <==> a.Type() == Expression
    ensures r.Ok? ==> r.value == a.expression
    ensures r.Err? ==> r.error == ArgumentTypeMismatch(Expression, a.Type())
  {
    match a
    case ExpressionArgument(e) => Ok(e)
    case _ => Err(ArgumentTypeMismatch(Expression, a.Type()))
  }

  /** Reads the argument at position `i`; a position outside the list fails. */
  function ArgumentAt(args: seq<Argument>, i: int): (r: Result<Argument>)
    ensures r.Ok? <==> 0 <= i < |args|
    ensures r.Ok? ==> r.value == args[i]
  {
    if 0 <= i < |args| then Ok(args[i]) else Err(ArgumentIndexOutOfBounds(i, |args|))
  }

  /**
   * The coerced value of a rule attribute: a scalar leaf (held as its string
   * form), a collection of values, or a mapping from values to values.
   */
  datatype AttrValue =
    | Scalar(text: string)
    | Sequence(items: seq<AttrValue>)
    | Mapping(entries: seq<(AttrValue, AttrValue)>)
  {
    predicate IsContainer() {
      Sequence? || Mapping?
    }
  }

  /** `parts` separated by `sep`. */
  function JoinWith(sep: string, parts: seq<string>): (r: string)
    ensures parts == [] ==> r == []
    ensures |parts| == 1 ==> r == parts[0]
  {
    if parts == [] then []
    else if |parts| == 1 then parts[0]
    else parts[0] + sep + JoinWith(sep, parts[1..])
  }

  /**
   * The string form of a value, as Java's `toString` prints it: a scalar is
   * its own text, a collection prints as `[a, b]` and a mapping as `{k=v}`.
   */
  function Render(v: AttrValue): (r: string)
    ensures v.Scalar? ==> r == v.text
    ensures v.Sequence? ==> |r| >= 2 && r[0] == '[' && r[|r| - 1] == ']'
    ensures v.Mapping? ==> |r| >= 2 && r[0] == '{' && r[|r| - 1] == '}'
    decreases v
  {
    match v
    case Scalar(s) => s
    case Sequence(items) =>
      "[" + JoinWith(", ", seq(|items|, i requires 0 <= i < |items| => Render(items[i]))) + "]"
    case Mapping(entries) =>
      "{" + JoinWith(", ", seq(|entries|, i requires 0 <= i < |entries| =>
                                Render(entries[i].0) + "=" + Render(entries[i].1))) + "}"
  }

  /**
   * Every value a depth-first traversal of `v` visits: `v` itself, and the
   * sub-values of each collection element and of each mapping key and value.
   */
  function SubValues(v: AttrValue): (r: set<AttrValue>)
    ensures v in r
    ensures v.Scalar? ==> r == {v}
    decreases v
  {
    {v} +
    match v
    case Scalar(_) => {}
    case Sequence(items) =>
      set i, x | 0 <= i < |items| && x in SubValues(items[i]) :: x
    case Mapping(entries) =>
      set i, x | 0 <= i < |entries| && x in SubValues(entries[i].0) + SubValues(entries[i].1) :: x
  }

  /** The traversal visits every element of a collection and every key and value of a mapping. */
  lemma ChildrenAreVisited(v: AttrValue)
    ensures v.Sequence? ==> forall i :: 0 <= i < |v.items| ==> v.items[i] in SubValues(v)
    ensures v.Mapping? ==> forall i :: 0 <= i < |v.entries| ==>
      v.entries[i].0 in SubValues(v) && v.entries[i].1 in SubValues(v)
  {
    match v
    case Scalar(_) =>
    case Sequence(items) =>
      forall i | 0 <= i < |items| ensures items[i] in SubValues(v) {
        assert items[i] in SubValues(items[i]);
      }
    case Mapping(entries) =>
      forall i | 0 <= i < |entries| ensures entries[i].0 in SubValues(v) && entries[i].1 in SubValues(v) {
        assert entries[i].0 in SubValues(entries[i].0) + SubValues(entries[i].1);
        assert entries[i].1 in SubValues(entries[i].0) + SubValues(entries[i].1);
      }
  }

  /**
   * The string forms of the scalar leaves found anywhere inside `v`: an
   * independent description of "the attribute contains this value".
   */
  function LeafTexts(v: AttrValue): (r: set<string>)
    ensures v.Scalar? ==> r == {v.text}
    ensures v == Sequence([]) ==> r == {}
    decreases v
  {
    match v
    case Scalar(s) => {s}
    case Sequence(items) =>
      set i, s | 0 <= i < |items| && s in LeafTexts(items[i]) :: s
    case Mapping(entries) =>
      set i, s | 0 <= i < |entries| && s in LeafTexts(entries[i].0) + LeafTexts(entries[i].1) :: s
  }

  /** A target graph snapshot: each known target's attributes by internal (camel-case) name. */
  datatype Environment = Environment(attributes: map<QueryTarget, map<string, AttrValue>>)

  /** The coerced value of attribute `attr` of `target`, if the target declares one. */
  function GetAttribute(env: Environment, target: QueryTarget, attr: string): (r: Option<AttrValue>)
    ensures r.Some? <==> target in env.attributes && attr in env.attributes[target]
    ensures r.Some? ==> r.value == env.attributes[target][attr]
  {
    if target in env.attributes && attr in env.attributes[target]
    then Some(env.attributes[target][attr])
    else None
  }

  /**
   * The sub-values of `target`'s attribute `attr` that `pred` accepts. An
   * attribute the target does not declare yields no contents rather than an
   * error.
   */
  function FilterAttributeContents(
    env: Environment, target: QueryTarget, attr: string, pred: AttrValue -> bool): (r: set<AttrValue>)
    ensures GetAttribute(env, target, attr).None? ==> r == {}
    ensures forall x :: x in r ==> pred(x)
    ensures forall x :: x in r ==> x in SubValues(GetAttribute(env, target, attr).value)
    ensures GetAttribute(env, target, attr).Some? ==>
      forall x :: x in SubValues(GetAttribute(env, target, attr).value) && pred(x) ==> x in r
  {
    match GetAttribute(env, target, attr)
    case None => {}
    case Some(v) => set x | x in SubValues(v) && pred(x)
  }
}
