/**
 * The `match` expression of the style language
 * (`src/style-spec/function/definitions/match.js`): parsing normalises the
 * argument list, and compilation builds a map from type-tagged input values to
 * the index of the output to evaluate, with the last argument as the fallback.
 */
module Match {
  import opened Common

  /** A JSON value as it appears in a style. Numbers are integers in this model. */
  datatype Json =
    | JNull
    | JBool(b: bool)
    | JNumber(n: int)
    | JString(s: string)
    | JArray(items: seq<Json>)
    | JObject(members: seq<(string, Json)>)

  /** JavaScript's `typeof v === 'object'`: null, arrays and objects. */
  predicate IsObject(v: Json) {
    v.JNull? || v.JArray? || v.JObject?
  }

  /** The type tag of a literal value, standing for `typeOf` of the type system. */
  datatype ValueType = NumberType | StringType | BooleanType

  function TypeOf(v: Json): ValueType
    requires !IsObject(v)
  {
    match v
    case JNumber(_) => NumberType
    case JString(_) => StringType
    case JBool(_) => BooleanType
  }

  datatype ErrorKind =
    | TooFewArguments(count: nat)
    | EmptyInputGroup
    | NonLiteralInput
    | TypeMismatch(expected: ValueType, found: ValueType)

  /** A `ParsingError`: the key path of the offending argument and what is wrong with it. */
  datatype ParsingError = ParsingError(key: string, kind: ErrorKind)

  /** The message text of each error; a type mismatch carries the type system's own message. */
  function Message(kind: ErrorKind): string
    requires !kind.TypeMismatch?
  {
    match kind
    case TooFewArguments(n) => "Expected at least 2 arguments, but found only " + Decimal(n) + "."
    case EmptyInputGroup => "Expected at least one input value."
    case NonLiteralInput =>
      "Match inputs must be either literal integer or string values or arrays of integer or string values."
  }

  /** The key path `key[i + 1]` under which an error in argument `i` is reported. */
  function ArgKey(key: string, i: nat): string {
    key + "[" + Decimal(i + 1) + "]"
  }

  /** Argument `i` of `n` is an input label: odd, and neither the first nor the last. */
  predicate IsInputIndex(n: nat, i: int) {
    1 <= i < n - 1 && i % 2 == 1
  }

  /** A label as a list of values: an array is its items, a scalar a singleton. */
  function InputGroup(arg: Json): seq<Json> {
    if arg.JArray? then arg.items else [arg]
  }

  /** The expression `['literal', group]` that parsing puts in place of a label. */
  function Literal(group: seq<Json>): Json {
    JArray([JString("literal"), JArray(group)])
  }

  /** The type of the first input value, when the first label starts with a literal. */
  function FirstType(args: seq<Json>): Option<ValueType> {
    if |args| >= 3 && |InputGroup(args[1])| > 0 && !IsObject(InputGroup(args[1])[0])
    then Some(TypeOf(InputGroup(args[1])[0]))
    else None
  }

  /** What is wrong with one input value: an object, or a type other than the first value's. */
  function ValueError(v: Json, first: Option<ValueType>): Option<ErrorKind> {
    if IsObject(v) then Some(NonLiteralInput)
    else if first.Some? && TypeOf(v) != first.value then Some(TypeMismatch(first.value, TypeOf(v)))
    else None
  }

  /** The error of the first bad value of a list, if any. */
  function FirstValueError(vs: seq<Json>, first: Option<ValueType>): (e: Option<ErrorKind>)
    ensures e.None? <==> forall j :: 0 <= j < |vs| ==> ValueError(vs[j], first).None?
  {
    if vs == [] then None
    else if ValueError(vs[0], first).Some? then ValueError(vs[0], first)
    else FirstValueError(vs[1..], first)
  }

  /** The error parsing reports for the label at `i`, assuming the labels before it were accepted. */
  function GroupError(args: seq<Json>, i: nat): Option<ErrorKind>
    requires i < |args|
  {
    if InputGroup(args[i]) == [] then Some(EmptyInputGroup)
    else FirstValueError(InputGroup(args[i]), FirstType(args))
  }

  /** Every label is non-empty and all its values are literals of the first value's type. */
  predicate LabelsValid(args: seq<Json>) {
    forall i :: 0 <= i < |args| && IsInputIndex(|args|, i) ==> GroupError(args, i).None?
  }

  /** The label at `i` is bad and every label before it is fine. */
  predicate FirstBadLabel(args: seq<Json>, i: nat) {
    && |args| >= 2 && IsInputIndex(|args|, i) && GroupError(args, i).Some?
    && forall j :: 0 <= j < i && IsInputIndex(|args|, j) ==> GroupError(args, j).None?
  }

  /** Once the label at `i` is the first bad one, no other label is. */
  lemma OnlyFirstBadLabel(args: seq<Json>, i: nat)
    requires FirstBadLabel(args, i)
    ensures forall i' :: FirstBadLabel(args, i') ==> i' == i
  {
    forall i' | FirstBadLabel(args, i')
      ensures i' == i
    {
      FirstBadLabelUnique(args, i, i');
    }
  }

  /** There is at most one first bad label. */
  lemma FirstBadLabelUnique(args: seq<Json>, i: nat, i': nat)
    requires FirstBadLabel(args, i) && FirstBadLabel(args, i')
    ensures i == i'
  {
  }

  /**
   * `MatchExpression.parse` up to the call of the generic signature check:
   * fewer than two arguments is an error; otherwise the first bad label (an empty one, or
   * one holding an object or a value whose type differs from the first value's) is reported
   * under its key path; with no bad label the result is the normalised argument list, of the
   * same length, in which every label is wrapped as `['literal', group]`.
   */
  method Parse(args: seq<Json>, key: string) returns (r: Result<seq<Json>, ParsingError>)
    ensures |args| < 2 ==> r == Err(ParsingError(key, TooFewArguments(|args|)))
    ensures |args| >= 2 && LabelsValid(args) ==> r.Ok?
    ensures forall i :: FirstBadLabel(args, i) ==> r == Err(ParsingError(ArgKey(key, i), GroupError(args, i).value))
    ensures r.Ok? ==> |args| >= 2 && LabelsValid(args)
    ensures r.Ok? ==> && |r.value| == |args|
                      && r.value[0] == args[0]
                      && r.value[|args| - 1] == args[|args| - 1]
                      && forall k :: 0 < k < |args| - 1 ==>
                           r.value[k] == if k % 2 == 1 then Literal(InputGroup(args[k])) else args[k]
  {
    if |args| < 2 {
      return Err(ParsingError(key, TooFewArguments(|args|)));
    }
    var normalized := [args[0]];
    var inputType: Option<ValueType> := None;
    var i := 1;
    while i < |args| - 1
      invariant 1 <= i <= |args| - 1
      invariant |normalized| == i && normalized[0] == args[0]
      invariant forall k :: 0 < k < i ==>
                  normalized[k] == if k % 2 == 1 then Literal(InputGroup(args[k])) else args[k]
      invariant forall j :: IsInputIndex(|args|, j) && j < i ==> GroupError(args, j).None?
      invariant inputType == if i > 1 then FirstType(args) else None
      invariant i > 1 ==> FirstType(args).Some?
    {
      if i % 2 == 1 {
        assert IsInputIndex(|args|, i);
        var e, inputGroup;
        e, inputType, inputGroup := CheckLabel(args, i, inputType);
        if e.Some? {
          OnlyFirstBadLabel(args, i);
          return Err(ParsingError(ArgKey(key, i), e.value));
        }
        normalized := normalized + [Literal(inputGroup)];
      } else {
        normalized := normalized + [args[i]];
      }
      i := i + 1;
    }
    normalized := normalized + [args[|args| - 1]];
    return Ok(normalized);
  }

  /**
   * One label of the loop of `parse`: its values (an array's items, or the single value), the
   * error found in them (an empty label first of all), and the input type after it.
   */
  method CheckLabel(args: seq<Json>, i: nat, inputType: Option<ValueType>)
    returns (e: Option<ErrorKind>, t: Option<ValueType>, inputGroup: seq<Json>)
    requires i < |args| && IsInputIndex(|args|, i)
    requires inputType == if i > 1 then FirstType(args) else None
    requires i > 1 ==> FirstType(args).Some?
    ensures inputGroup == InputGroup(args[i]) && e == GroupError(args, i)
    ensures e.None? ==> t == FirstType(args) && FirstType(args).Some?
  {
    var arg := args[i];
    inputGroup := if arg.JArray? then arg.items else [arg];
    if |inputGroup| == 0 {
      return Some(EmptyInputGroup), inputType, inputGroup;
    }
    e, t := CheckGroup(inputGroup, FirstType(args), inputType);
  }

  /**
   * The loop of `parse` over the values of one label: the first object, or the first value
   * whose type differs from the input type, is the error. The input type is `first`, or not
   * yet set when this is the first label, whose first value then sets it.
   */
  method CheckGroup(group: seq<Json>, first: Option<ValueType>, inputType: Option<ValueType>)
    returns (e: Option<ErrorKind>, t: Option<ValueType>)
    requires |group| > 0
    requires inputType.Some? ==> inputType == first
    requires inputType.None? && !IsObject(group[0]) ==> first == Some(TypeOf(group[0]))
    ensures e == FirstValueError(group, first)
    ensures e.None? ==> t == first && first.Some?
  {
    t := inputType;
    var j := 0;
    while j < |group|
      invariant 0 <= j <= |group|
      invariant forall jj :: 0 <= jj < j ==> ValueError(group[jj], first).None?
      invariant t == if inputType.Some? || j > 0 then first else None
      invariant inputType.Some? || j > 0 ==> first.Some?
    {
      var inputValue := group[j];
      if IsObject(inputValue) {
        FirstErrorAt(group, first, j);
        return Some(NonLiteralInput), t;
      }
      var ty := TypeOf(inputValue);
      if t.None? {
        t := Some(ty);
      } else if t.value != ty {
        FirstErrorAt(group, first, j);
        return Some(TypeMismatch(t.value, ty)), t;
      }
      j := j + 1;
    }
    e := None;
  }

  /** When the values before `j` are fine and `vs[j]` is not, `vs[j]`'s error is the first. */
  lemma {:induction false} FirstErrorAt(vs: seq<Json>, first: Option<ValueType>, j: nat)
    requires j < |vs| && ValueError(vs[j], first).Some?
    requires forall jj :: 0 <= jj < j ==> ValueError(vs[jj], first).None?
    ensures FirstValueError(vs, first) == ValueError(vs[j], first)
  {
    if j > 0 {
      FirstErrorAt(vs[1..], first, j - 1);
    }
  }

  // ---- compilation and evaluation ----

  /** The normalised argument is a `['literal', group]` expression. */
  predicate IsLiteral(arg: Json) {
    arg.JArray? && |arg.items| == 2 && arg.items[0] == JString("literal") && arg.items[1].JArray?
  }

  function LiteralValues(arg: Json): seq<Json>
    requires IsLiteral(arg)
  {
    arg.items[1].items
  }

  predicate AllLiterals(vs: seq<Json>) {
    forall v :: v in vs ==> !IsObject(v)
  }

  /** `typeof value` as a string, for a literal value. */
  function TypeName(v: Json): string
    requires !IsObject(v)
  {
    match v
    case JNumber(_) => "number"
    case JString(_) => "string"
    case JBool(_) => "boolean"
  }

  /** `String(value)` for a literal value. */
  function ValueString(v: Json): string
    requires !IsObject(v)
  {
    match v
    case JNumber(n) => IntString(n)
    case JString(s) => s
    case JBool(b) => if b then "true" else "false"
  }

  /** The input-map key `${typeof value}-${String(value)}`. */
  function KeyString(v: Json): string
    requires !IsObject(v)
  {
    TypeName(v) + "-" + ValueString(v)
  }

  /** The type tag makes keys faithful: different literal values never share a key, so `0` and `"0"` differ. */
  lemma KeyStringInjective(a: Json, b: Json)
    requires !IsObject(a) && !IsObject(b)
    ensures KeyString(a) == KeyString(b) ==> a == b
  {
    if KeyString(a) == KeyString(b) {
      assert KeyString(a)[0] == KeyString(b)[0];
      assert TypeName(a) == TypeName(b);
      var n := |TypeName(a)| + 1;
      assert KeyString(a)[n..] == ValueString(a);
      assert KeyString(b)[n..] == ValueString(b);
      match a
      case JNumber(x) => IntStringInjective(x, b.n);
      case JString(_) =>
      case JBool(_) =>
    }
  }

  /** The keys of a list of literal values. */
  function KeysOf(vs: seq<Json>): set<string>
    requires AllLiterals(vs)
  {
    if vs == [] then {} else KeysOf(vs[..|vs| - 1]) + {KeyString(vs[|vs| - 1])}
  }

  /** Every label is a literal list of literal values; holds for what `Parse` returns. */
  predicate Compilable(args: seq<Json>) {
    && |args| >= 2
    && forall i :: 0 <= i < |args| && IsInputIndex(|args|, i) ==>
         IsLiteral(args[i]) && AllLiterals(LiteralValues(args[i]))
  }

  /** Number of labels: the odd positions strictly between the first and the last argument. */
  function GroupCount(n: nat): nat { if n < 2 then 0 else (n - 1) / 2 }

  /** The values of label `g`, which is argument `2 g + 1`. */
  function GroupValues(args: seq<Json>, g: nat): (vs: seq<Json>)
    requires Compilable(args) && g < GroupCount(|args|)
    ensures AllLiterals(vs)
  {
    assert IsInputIndex(|args|, 2 * g + 1);
    LiteralValues(args[2 * g + 1])
  }

  function GroupKeys(args: seq<Json>, g: nat): set<string>
    requires Compilable(args) && g < GroupCount(|args|)
  {
    KeysOf(GroupValues(args, g))
  }

  /** Labels and outputs of an argument list of length `m`. */
  lemma Halves(m: nat)
    requires m >= 2
    ensures m % 2 == 0 ==> GroupCount(m) == m / 2 - 1
    ensures m % 2 == 1 ==> GroupCount(m) == m / 2 && 2 * (m / 2) == m - 1
  {
  }

  /** How the counts of labels and outputs before argument `i` grow by one argument. */
  lemma HalfStep(i: nat)
    requires i >= 1
    ensures i % 2 == 1 ==> (i + 1) / 2 == i / 2 + 1 && i / 2 == (i - 1) / 2
    ensures i % 2 == 0 ==> (i + 1) / 2 == i / 2 && i / 2 == (i - 1) / 2 + 1
  {
  }

  /** Input argument `i` holds label `i / 2`. */
  lemma LabelOfArgument(m: nat, i: int)
    requires IsInputIndex(m, i)
    ensures i / 2 < GroupCount(m) && 2 * (i / 2) + 1 == i
  {
  }

  /** The key sets of the labels, in order. */
  function LabelKeys(args: seq<Json>): (ls: seq<set<string>>)
    requires Compilable(args)
    ensures |ls| == GroupCount(|args|)
    ensures forall g :: 0 <= g < |ls| ==> ls[g] == GroupKeys(args, g)
  {
    seq(GroupCount(|args|), g requires 0 <= g < GroupCount(|args|) => GroupKeys(args, g))
  }

  /** The last of the first `n` key sets that holds `key`. */
  function LastIn(labels: seq<set<string>>, key: string, n: nat): (r: Option<nat>)
    requires n <= |labels|
    ensures r.Some? ==> r.value < n
  {
    if n == 0 then None
    else if key in labels[n - 1] then Some(n - 1)
    else LastIn(labels, key, n - 1)
  }

  /** `LastIn` finds a set holding `key` that no later set before `n` holds, or there is none. */
  lemma {:induction false} LastInIsLast(labels: seq<set<string>>, key: string, n: nat)
    requires n <= |labels|
    ensures LastIn(labels, key, n).Some? ==>
              && key in labels[LastIn(labels, key, n).value]
              && forall h :: LastIn(labels, key, n).value < h < n ==> key !in labels[h]
    ensures LastIn(labels, key, n).None? ==> forall h :: 0 <= h < n ==> key !in labels[h]
    decreases n
  {
    if n > 0 && key !in labels[n - 1] {
      LastInIsLast(labels, key, n - 1);
    }
  }

  /** The last of the first `n` labels that holds `key`. */
  function LastGroupWith(args: seq<Json>, key: string, n: nat): (r: Option<nat>)
    requires Compilable(args) && n <= GroupCount(|args|)
    ensures r.Some? ==> r.value < n
  {
    LastIn(LabelKeys(args), key, n)
  }

  /** Label `h` holds `key` among its values. */
  predicate LabelHolds(args: seq<Json>, h: nat, key: string)
    requires Compilable(args)
  {
    h < GroupCount(|args|) && key in GroupKeys(args, h)
  }

  /** `LastGroupWith` finds a label holding `key` that no later label before `n` holds, or there is none. */
  lemma LastGroupWithIsLast(args: seq<Json>, key: string, n: nat)
    requires Compilable(args) && n <= GroupCount(|args|)
    ensures var r := LastGroupWith(args, key, n);
            r.Some? ==> LabelHolds(args, r.value, key) && forall h: nat :: r.value < h < n ==> !LabelHolds(args, h, key)
    ensures LastGroupWith(args, key, n).None? ==> forall h: nat :: h < n ==> !LabelHolds(args, h, key)
  {
    LastInIsLast(LabelKeys(args), key, n);
  }

  /**
   * `compileFromArgs`: the outputs are the thunks of arguments 2, 4, ... followed by the last
   * argument ("otherwise"); the input map holds exactly the keys of the label values and sends
   * each to the index of the LAST label holding it.
   */
  method CompileFromArgs(args: seq<Json>) returns (inputMap: map<string, nat>, outputs: seq<nat>)
    requires Compilable(args)
    ensures |outputs| == |args| / 2
    ensures forall k :: 0 <= k < |outputs| - 1 ==> outputs[k] == 2 * k + 2
    ensures outputs[|outputs| - 1] == |args| - 1
    ensures forall key :: key in inputMap <==> LastGroupWith(args, key, GroupCount(|args|)).Some?
    ensures forall key :: key in inputMap ==> inputMap[key] == LastGroupWith(args, key, GroupCount(|args|)).value
  {
    var inputs;
    inputs, outputs := SplitArgs(args);
    inputMap := BuildInputMap(args, inputs);
  }

  /** The first loop of `compileFromArgs`: the label values in order, and the output positions. */
  method SplitArgs(args: seq<Json>) returns (inputs: seq<seq<Json>>, outputs: seq<nat>)
    requires Compilable(args)
    ensures |inputs| == GroupCount(|args|)
    ensures forall g :: 0 <= g < |inputs| ==> inputs[g] == GroupValues(args, g)
    ensures |outputs| == |args| / 2
    ensures forall k :: 0 <= k < |outputs| - 1 ==> outputs[k] == 2 * k + 2
    ensures outputs[|outputs| - 1] == |args| - 1
  {
    inputs := [];
    outputs := [];
    var i := 1;
    while i < |args| - 1
      invariant 1 <= i <= |args| - 1 || (|args| == 2 && i == 1)
      invariant |inputs| == i / 2 && |outputs| == (i - 1) / 2
      invariant forall g :: 0 <= g < |inputs| ==> g < GroupCount(|args|) && inputs[g] == GroupValues(args, g)
      invariant forall k :: 0 <= k < |outputs| ==> outputs[k] == 2 * k + 2
    {
      HalfStep(i);
      if i % 2 == 1 {
        assert IsInputIndex(|args|, i);
        LabelOfArgument(|args|, i);
        inputs := inputs + [LiteralValues(args[i])];
      } else {
        outputs := outputs + [i];
      }
      i := i + 1;
    }
    outputs := outputs + [|args| - 1];
    Halves(|args|);
  }

  /** `m` sends every key of the first `n` labels, and only those, to the last of them holding it. */
  ghost predicate MapsToLast(args: seq<Json>, m: map<string, nat>, n: nat)
    requires Compilable(args) && n <= GroupCount(|args|)
  {
    && (forall key :: key in m <==> LastGroupWith(args, key, n).Some?)
    && (forall key :: key in m ==> m[key] == LastGroupWith(args, key, n).value)
  }

  /** The second loop of `compileFromArgs`: label after label, its values are bound to its index. */
  method BuildInputMap(args: seq<Json>, inputs: seq<seq<Json>>) returns (inputMap: map<string, nat>)
    requires Compilable(args) && |inputs| == GroupCount(|args|)
    requires forall g :: 0 <= g < |inputs| ==> inputs[g] == GroupValues(args, g)
    ensures MapsToLast(args, inputMap, GroupCount(|args|))
  {
    inputMap := map[];
    var g := 0;
    while g < |inputs|
      invariant 0 <= g <= |inputs|
      invariant MapsToLast(args, inputMap, g)
    {
      inputMap := AddLabel(args, inputMap, g, inputs[g]);
      g := g + 1;
    }
  }

  /** One pass of the inner loop of `compileFromArgs`: every value of label `g` now maps to `g`. */
  method AddLabel(args: seq<Json>, inputMap: map<string, nat>, g: nat, values: seq<Json>)
    returns (r: map<string, nat>)
    requires Compilable(args) && g < GroupCount(|args|) && values == GroupValues(args, g)
    requires MapsToLast(args, inputMap, g)
    ensures MapsToLast(args, r, g + 1)
  {
    r := PutKeys(inputMap, values, g);
    forall key
      ensures LastGroupWith(args, key, g + 1) == if key in KeysOf(values) then Some(g) else LastGroupWith(args, key, g)
    {
    }
  }

  /** The inner loop itself: each value's key is (re)bound to `g`, in order. */
  method PutKeys(inputMap: map<string, nat>, values: seq<Json>, g: nat) returns (r: map<string, nat>)
    requires AllLiterals(values)
    ensures forall key :: key in r <==> key in inputMap || key in KeysOf(values)
    ensures forall key :: key in r ==> r[key] == if key in KeysOf(values) then g else inputMap[key]
  {
    r := inputMap;
    var j := 0;
    ghost var done: set<string> := {};
    while j < |values|
      invariant 0 <= j <= |values| && done == KeysOf(values[..j])
      invariant forall key :: key in r <==> key in inputMap || key in done
      invariant forall key :: key in r ==> r[key] == if key in done then g else inputMap[key]
    {
      assert values[..j + 1][..j] == values[..j];
      r := r[KeyString(values[j]) := g];
      done := done + {KeyString(values[j])};
      j := j + 1;
    }
    assert values[..j] == values;
  }

  /** The argument position `Evaluate` picks is that of an output. */
  predicate WellFormedProgram(inputMap: map<string, nat>, outputs: seq<nat>) {
    |outputs| > 0 && forall key :: key in inputMap ==> inputMap[key] < |outputs|
  }

  /**
   * The key the compiled code looks up for a runtime input. Only literal values can hit:
   * every map key starts with `number-`, `string-` or `boolean-`.
   */
  function EvalKey(input: Json): Option<string> {
    if IsObject(input) then None else Some(KeyString(input))
  }

  /**
   * The compiled code at evaluation time: the argument position of the output selected by the
   * input's key, or of the last output when the key is not in the map.
   */
  function Evaluate(inputMap: map<string, nat>, outputs: seq<nat>, input: Json): (r: nat)
    requires WellFormedProgram(inputMap, outputs)
    ensures r in outputs
    ensures IsObject(input) ==> r == outputs[|outputs| - 1]
  {
    var key := EvalKey(input);
    if key.Some? && key.value in inputMap then outputs[inputMap[key.value]] else outputs[|outputs| - 1]
  }

  /** What `CompileFromArgs` promises of its two results. */
  ghost predicate CompiledFrom(args: seq<Json>, inputMap: map<string, nat>, outputs: seq<nat>)
    requires Compilable(args)
  {
    && |outputs| == |args| / 2
    && (forall k :: 0 <= k < |outputs| - 1 ==> outputs[k] == 2 * k + 2)
    && outputs[|outputs| - 1] == |args| - 1
    && (forall key :: key in inputMap <==> LastGroupWith(args, key, GroupCount(|args|)).Some?)
    && (forall key :: key in inputMap ==> inputMap[key] == LastGroupWith(args, key, GroupCount(|args|)).value)
  }

  /** Label `g` sits just before output `g`, which is argument `2 g + 2`. */
  lemma OutputAfterLabel(args: seq<Json>, outputs: seq<nat>, g: nat)
    requires |args| >= 2 && |outputs| == |args| / 2
    requires forall k :: 0 <= k < |outputs| - 1 ==> outputs[k] == 2 * k + 2
    requires outputs[|outputs| - 1] == |args| - 1
    requires g < GroupCount(|args|)
    ensures g < |outputs| && outputs[g] == 2 * g + 2
  {
    Halves(|args|);
  }

  /**
   * The meaning of a compiled `match`: a literal input equal to a value of some label
   * evaluates the output right after the last such label (argument `2 g + 2`); any other
   * input evaluates the last argument ("otherwise").
   */
  lemma EvaluateSelects(args: seq<Json>, inputMap: map<string, nat>, outputs: seq<nat>, input: Json)
    requires Compilable(args) && CompiledFrom(args, inputMap, outputs)
    ensures WellFormedProgram(inputMap, outputs)
    ensures Evaluate(inputMap, outputs, input) ==
            if !IsObject(input) && LastGroupWith(args, KeyString(input), GroupCount(|args|)).Some?
            then 2 * LastGroupWith(args, KeyString(input), GroupCount(|args|)).value + 2
            else |args| - 1
  {
    var n := GroupCount(|args|);
    CompiledIsWellFormed(args, inputMap, outputs);
    if !IsObject(input) {
      var key := KeyString(input);
      var last := LastGroupWith(args, key, n);
      if last.Some? {
        OutputAfterLabel(args, outputs, last.value);
      }
    }
  }

  /** Every label index the input map holds selects an output. */
  lemma CompiledIsWellFormed(args: seq<Json>, inputMap: map<string, nat>, outputs: seq<nat>)
    requires Compilable(args) && CompiledFrom(args, inputMap, outputs)
    ensures WellFormedProgram(inputMap, outputs)
  {
    forall key | key in inputMap
      ensures inputMap[key] < |outputs|
    {
      OutputAfterLabel(args, outputs, LastGroupWith(args, key, GroupCount(|args|)).value);
    }
  }

  /** A successful parse can be compiled. */
  lemma ParsedIsCompilable(args: seq<Json>, normalized: seq<Json>)
    requires |args| >= 2 && LabelsValid(args)
    requires |normalized| == |args|
    requires forall k :: 0 < k < |args| - 1 ==>
               normalized[k] == if k % 2 == 1 then Literal(InputGroup(args[k])) else args[k]
    ensures Compilable(normalized)
  {
    forall i | 0 <= i < |normalized| && IsInputIndex(|normalized|, i)
      ensures IsLiteral(normalized[i]) && AllLiterals(LiteralValues(normalized[i]))
    {
      assert GroupError(args, i).None?;
      var vs := InputGroup(args[i]);
      forall v | v in LiteralValues(normalized[i])
        ensures !IsObject(v)
      {
        var j :| 0 <= j < |vs| && vs[j] == v;
        assert ValueError(vs[j], FirstType(args)).None?;
      }
    }
  }
}
