// Parameter checking of src/core/all.rs: JSON values against declared types.
module ParamTypes {
  import opened Prelude

  /** Integers as the JSON parser keeps them: whatever fits 64 bits, signed or not. */
  type JsonInt = n: int | -0x8000_0000_0000_0000 <= n < 0x1_0000_0000_0000_0000

  datatype Number = Int(n: JsonInt) | Float(r: real)

  datatype Value =
    | Null
    | Bool(b: bool)
    | Num(num: Number)
    | Str(s: string)
    | Arr(items: seq<Value>)
    | Obj(fields: seq<(string, Value)>)

  datatype TypeSchema =
    | TBool | TI64 | TU64 | TF64 | TString | TJson | TBytes
    | TArray(elem: TypeSchema)
    | TMap(values: TypeSchema)
    | TOption(inner: TypeSchema)
    | TEnum(variants: seq<string>)
    | TObject(fields: seq<FieldSchema>)
    | TRef(name: string)

  datatype FieldSchema = FieldSchema(name: string, ty: TypeSchema, required: bool)

  type Check = Result<(), string>

  function Want(ok: bool, expected: string): Check {
    if ok then Ok(()) else Err(expected)
  }

  predicate IsI64(v: Value) {
    v.Num? && v.num.Int? && -0x8000_0000_0000_0000 <= v.num.n < 0x8000_0000_0000_0000
  }

  predicate IsU64(v: Value) {
    v.Num? && v.num.Int? && 0 <= v.num.n < 0x1_0000_0000_0000_0000
  }

  function CheckType(v: Value, ty: TypeSchema): Check
    decreases ty, 0
  {
    if v.Null? then Ok(())
    else match ty
      case TJson | TBytes | TRef(_) | TObject(_) | TMap(_) => Ok(())
      case TBool => Want(v.Bool?, "bool")
      case TString => Want(v.Str?, "string")
      case TI64 => Want(IsI64(v), "integer")
      case TU64 => Want(IsU64(v), "unsigned integer")
      case TF64 => Want(v.Num?, "number")
      case TOption(inner) => if v.Null? then Ok(()) else CheckType(v, inner)
      case TArray(elem) => if v.Arr? then CheckItems(v.items, elem) else Err("array")
      case TEnum(variants) =>
        if !v.Str? then Err("string")
        else if v.s in variants then Ok(()) else Err("one of the allowed enum variants")
  }

  /** The items in order, stopping at the first that fails. */
  function CheckItems(items: seq<Value>, ty: TypeSchema): Check
    decreases ty, 1, |items|
  {
    if items == [] then Ok(())
    else
      var first := CheckType(items[0], ty);
      if first.Err? then first else CheckItems(items[1..], ty)
  }

  // ------------------------------------------------------------------
  // Conformance, stated without walking the schema
  // ------------------------------------------------------------------

  /** How many array layers a type has, optionality aside. */
  function Layers(ty: TypeSchema): nat {
    match ty
    case TOption(inner) => Layers(inner)
    case TArray(elem) => 1 + Layers(elem)
    case _ => 0
  }

  /** What is below them. */
  function Leaf(ty: TypeSchema): TypeSchema {
    match ty
    case TOption(inner) => Leaf(inner)
    case TArray(elem) => Leaf(elem)
    case _ => ty
  }

  predicate IsOpaque(ty: TypeSchema) {
    ty.TJson? || ty.TBytes? || ty.TRef? || ty.TObject? || ty.TMap?
  }

  predicate LeafAccepts(v: Value, leaf: TypeSchema) {
    || IsOpaque(leaf)
    || (leaf.TBool? && v.Bool?)
    || (leaf.TString? && v.Str?)
    || (leaf.TI64? && IsI64(v))
    || (leaf.TU64? && IsU64(v))
    || (leaf.TF64? && v.Num?)
    || (leaf.TEnum? && v.Str? && v.s in leaf.variants)
  }

  /** `w` sits inside `v` at the given array indices. */
  ghost predicate At(v: Value, path: seq<nat>, w: Value) {
    if path == [] then v == w
    else v.Arr? && path[0] < |v.items| && At(v.items[path[0]], path[1..], w)
  }

  /**
   * Every value found at most as deep as the type has array layers is null, or
   * an array above the last layer, or acceptable to the leaf type at it.
   */
  ghost predicate Conforms(v: Value, ty: TypeSchema) {
    forall path, w | At(v, path, w) && |path| <= Layers(ty) ::
      FitsAt(w, |path|, ty)
  }

  ghost predicate FitsAt(w: Value, depth: nat, ty: TypeSchema) {
    w.Null? || (if depth < Layers(ty) then w.Arr? else LeafAccepts(w, Leaf(ty)))
  }

  lemma {:induction false} ItemsChecked(items: seq<Value>, ty: TypeSchema)
    ensures CheckItems(items, ty).Ok? <==> forall i | 0 <= i < |items| :: CheckType(items[i], ty).Ok?
  {
    if items == [] {
    } else {
      ItemsChecked(items[1..], ty);
      assert items == [items[0]] + items[1..];
    }
  }

  lemma ConformsLeaf(v: Value, ty: TypeSchema)
    requires Layers(ty) == 0
    ensures Conforms(v, ty) <==> v.Null? || LeafAccepts(v, Leaf(ty))
  {
    assert At(v, [], v);
    if v.Null? || LeafAccepts(v, Leaf(ty)) {
      forall path, w | At(v, path, w) && |path| <= 0 ensures FitsAt(w, |path|, ty) {
        assert w == v;
      }
    } else {
      assert !FitsAt(v, 0, ty);
    }
  }

  lemma ConformsArray(v: Value, elem: TypeSchema)
    ensures Conforms(v, TArray(elem)) <==>
      v.Null? || (v.Arr? && forall i | 0 <= i < |v.items| :: Conforms(v.items[i], elem))
  {
    var ty := TArray(elem);
    assert At(v, [], v);
    if v.Arr? && forall i | 0 <= i < |v.items| :: Conforms(v.items[i], elem) {
      forall path, w | At(v, path, w) && |path| <= Layers(ty) ensures FitsAt(w, |path|, ty) {
        if path != [] {
          assert Conforms(v.items[path[0]], elem);
          assert FitsAt(w, |path[1..]|, elem);
        }
      }
    }
    if Conforms(v, ty) && !v.Null? {
      assert FitsAt(v, 0, ty);
      forall i | 0 <= i < |v.items| ensures Conforms(v.items[i], elem) {
        forall path, w | At(v.items[i], path, w) && |path| <= Layers(elem) ensures FitsAt(w, |path|, elem) {
          assert ([i] + path)[1..] == path;
          assert At(v, [i] + path, w);
          assert FitsAt(w, |[i] + path|, ty);
        }
      }
    }
  }

  /** The checker accepts exactly the conforming values, over all nested types. */
  lemma {:induction false} CheckTypeIff(v: Value, ty: TypeSchema)
    ensures CheckType(v, ty).Ok? <==> Conforms(v, ty)
    decreases ty
  {
    match ty
    case TOption(inner) =>
      CheckTypeIff(v, inner);
      assert Conforms(v, ty) <==> Conforms(v, inner) by {
        assert forall w, d: nat :: FitsAt(w, d, ty) <==> FitsAt(w, d, inner);
      }
    case TArray(elem) =>
      ConformsArray(v, elem);
      if v.Arr? {
        ItemsChecked(v.items, elem);
        forall i | 0 <= i < |v.items| ensures CheckType(v.items[i], elem).Ok? <==> Conforms(v.items[i], elem) {
          CheckTypeIff(v.items[i], elem);
        }
      }
    case _ =>
      ConformsLeaf(v, ty);
  }

  /** Every integer the parser keeps is signed or unsigned, both just from 0 below 2^63; no other number is either. */
  lemma IntegersSplit(n: JsonInt, r: real)
    ensures var signed, unsigned := CheckType(Num(Int(n)), TI64), CheckType(Num(Int(n)), TU64);
      && (signed.Ok? <==> n < 9223372036854775808) && (unsigned.Ok? <==> n >= 0)
      && (signed == Ok(()) || signed == Err("integer")) && (unsigned == Ok(()) || unsigned == Err("unsigned integer"))
    ensures CheckType(Num(Float(r)), TI64) == Err("integer")
    ensures CheckType(Num(Float(r)), TU64) == Err("unsigned integer")
    ensures CheckType(Num(Int(n)), TF64).Ok? && CheckType(Num(Float(r)), TF64).Ok?
  {
  }

  function Expected(w: Value, depth: nat, ty: TypeSchema): string {
    if depth < Layers(ty) then "array"
    else match Leaf(ty)
      case TBool => "bool"
      case TI64 => "integer"
      case TU64 => "unsigned integer"
      case TF64 => "number"
      case TEnum(_) => if w.Str? then "one of the allowed enum variants" else "string"
      case _ => "string"
  }

  lemma {:induction false} ItemsError(items: seq<Value>, ty: TypeSchema) returns (i: nat)
    requires CheckItems(items, ty).Err?
    ensures i < |items| && CheckType(items[i], ty) == CheckItems(items, ty)
    ensures forall j | 0 <= j < i :: CheckType(items[j], ty).Ok?
  {
    if CheckType(items[0], ty).Err? {
      i := 0;
    } else {
      var k := ItemsError(items[1..], ty);
      i := k + 1;
    }
  }

  /** A refusal names what was expected of some value that really does not fit where it sits. */
  lemma {:induction false} ErrorNamesOffender(v: Value, ty: TypeSchema) returns (path: seq<nat>, w: Value)
    requires CheckType(v, ty).Err?
    ensures At(v, path, w) && |path| <= Layers(ty) && !FitsAt(w, |path|, ty)
    ensures CheckType(v, ty).error == Expected(w, |path|, ty)
    decreases ty
  {
    path, w := [], v;
    match ty
    case TOption(inner) => path, w := ErrorNamesOffender(v, inner);
    case TArray(elem) =>
      if v.Arr? {
        var i := ItemsError(v.items, elem);
        path, w := ErrorNamesOffender(v.items[i], elem);
        assert ([i] + path)[1..] == path;
        path := [i] + path;
      }
    case _ =>
  }

  // ------------------------------------------------------------------
  // Widening
  // ------------------------------------------------------------------

  /** When every value of one declared type is a value of another. */
  predicate Widens(t1: TypeSchema, t2: TypeSchema)
    decreases t1, t2
  {
    if t1.TOption? then Widens(t1.inner, t2)
    else if t2.TOption? then Widens(t1, t2.inner)
    else
      || IsOpaque(t2)
      || (t1.TEnum? && t1.variants == [])
      || (t1.TBool? && t2.TBool?)
      || (t1.TI64? && (t2.TI64? || t2.TF64?))
      || (t1.TU64? && (t2.TU64? || t2.TF64?))
      || (t1.TF64? && t2.TF64?)
      || (t1.TString? && t2.TString?)
      || (t1.TEnum? && t2.TString?)
      || (t1.TEnum? && t2.TEnum? && forall x | x in t1.variants :: x in t2.variants)
      || (t1.TArray? && t2.TArray? && Widens(t1.elem, t2.elem))
  }

  lemma {:induction false} WidensSound(t1: TypeSchema, t2: TypeSchema, v: Value)
    requires Widens(t1, t2) && CheckType(v, t1).Ok?
    ensures CheckType(v, t2).Ok?
    decreases t1, t2
  {
    if t1.TOption? {
      WidensSound(t1.inner, t2, v);
    } else if t2.TOption? {
      WidensSound(t1, t2.inner, v);
    } else if t1.TArray? && t2.TArray? && v.Arr? {
      ItemsChecked(v.items, t1.elem);
      ItemsChecked(v.items, t2.elem);
      forall i | 0 <= i < |v.items| ensures CheckType(v.items[i], t2.elem).Ok? {
        WidensSound(t1.elem, t2.elem, v.items[i]);
      }
    }
  }

  ghost function Longer(variants: seq<string>): (s: string)
    ensures s !in variants && forall x | x in variants :: |x| < |s|
  {
    if variants == [] then "x"
    else
      var rest := Longer(variants[1..]);
      variants[0] + rest + "x"
  }

  /** Where widening fails, some valid value tells the two types apart. */
  lemma {:induction false} WidensComplete(t1: TypeSchema, t2: TypeSchema) returns (v: Value)
    requires !Widens(t1, t2)
    ensures CheckType(v, t1).Ok? && CheckType(v, t2).Err?
    decreases t1, t2
  {
    if t1.TOption? {
      v := WidensComplete(t1.inner, t2);
    } else if t2.TOption? {
      v := WidensComplete(t1, t2.inner);
    } else {
      match t1
      case TBool => v := Bool(true);
      case TI64 => v := Num(Int(-1));
      case TU64 => v := Num(Int(0x8000_0000_0000_0000));
      case TF64 => v := Num(Float(0.5));
      case TString => v := Str(if t2.TEnum? then Longer(t2.variants) else "");
      case TEnum(variants) =>
        if t2.TEnum? {
          var x :| x in variants && x !in t2.variants;
          v := Str(x);
        } else {
          v := Str(variants[0]);
        }
      case TArray(elem) =>
        if t2.TArray? {
          var item := WidensComplete(elem, t2.elem);
          v := Arr([item]);
          assert v.items[0] == item;
          ItemsChecked(v.items, elem);
          ItemsChecked(v.items, t2.elem);
        } else {
          v := Arr([]);
        }
      case _ =>
        v := if t2.TBool? then Str("") else Bool(true);
        if t2.TArray? { v := Bool(true); }
    }
  }

  /** Widening is exactly inclusion of the accepted values. */
  lemma WidensIff(t1: TypeSchema, t2: TypeSchema)
    ensures Widens(t1, t2) <==> forall v :: CheckType(v, t1).Ok? ==> CheckType(v, t2).Ok?
  {
    if Widens(t1, t2) {
      forall v | CheckType(v, t1).Ok? ensures CheckType(v, t2).Ok? {
        WidensSound(t1, t2, v);
      }
    } else {
      var v := WidensComplete(t1, t2);
    }
  }

  // ------------------------------------------------------------------
  // validate_params
  // ------------------------------------------------------------------

  datatype ParamError =
    | MissingRequired(name: string)
    | UnknownParam(name: string)
    | Mistyped(name: string, expected: string, got: string)

  function JsonTypeName(v: Value): string {
    match v
    case Null => "null"
    case Bool(_) => "bool"
    case Num(_) => "number"
    case Str(_) => "string"
    case Arr(_) => "array"
    case Obj(_) => "object"
  }

  lemma JsonTypeNameIff(v: Value)
    ensures JsonTypeName(v) == "null" <==> v.Null?
    ensures JsonTypeName(v) == "bool" <==> v.Bool?
    ensures JsonTypeName(v) == "number" <==> v.Num?
    ensures JsonTypeName(v) == "string" <==> v.Str?
    ensures JsonTypeName(v) == "array" <==> v.Arr?
    ensures JsonTypeName(v) == "object" <==> v.Obj?
  {
  }

  /** Request parameters in the order they are kept, one entry a key. */
  type Params = seq<(string, Value)>

  predicate HasKey(params: Params, name: string) {
    exists i | 0 <= i < |params| :: params[i].0 == name
  }

  function Get(params: Params, name: string): Option<Value> {
    if params == [] then None
    else if params[0].0 == name then Some(params[0].1)
    else Get(params[1..], name)
  }

  predicate Declares(inputs: seq<FieldSchema>, name: string) {
    exists i | 0 <= i < |inputs| :: inputs[i].name == name
  }

  /** Input `i` is required and absent. */
  predicate Lacks(inputs: seq<FieldSchema>, params: Params, i: nat)
    requires i < |inputs|
  {
    inputs[i].required && !HasKey(params, inputs[i].name)
  }

  /** Input `i` is present with a value its type refuses. */
  predicate Misfits(inputs: seq<FieldSchema>, params: Params, i: nat)
    requires i < |inputs|
  {
    var v := Get(params, inputs[i].name);
    v.Some? && CheckType(v.value, inputs[i].ty).Err?
  }

  ghost predicate AllPresent(inputs: seq<FieldSchema>, params: Params) {
    forall i | 0 <= i < |inputs| :: !Lacks(inputs, params, i)
  }

  ghost predicate AllDeclared(inputs: seq<FieldSchema>, params: Params) {
    forall i | 0 <= i < |params| :: Declares(inputs, params[i].0)
  }

  ghost predicate AllFit(inputs: seq<FieldSchema>, params: Params) {
    forall i | 0 <= i < |inputs| :: !Misfits(inputs, params, i)
  }

  /** The error names the first offender of the first kind of trouble there is. */
  ghost predicate Explains(inputs: seq<FieldSchema>, params: Params, e: ParamError) {
    match e
    case MissingRequired(name) =>
      exists i :: 0 <= i < |inputs| && Lacks(inputs, params, i) && inputs[i].name == name
                  && forall j | 0 <= j < i :: !Lacks(inputs, params, j)
    case UnknownParam(name) =>
      AllPresent(inputs, params) &&
      exists i :: 0 <= i < |params| && !Declares(inputs, params[i].0) && params[i].0 == name
                  && forall j | 0 <= j < i :: Declares(inputs, params[j].0)
    case Mistyped(name, expected, got) =>
      AllPresent(inputs, params) && AllDeclared(inputs, params) &&
      exists i :: 0 <= i < |inputs| && Misfits(inputs, params, i) && inputs[i].name == name
                  && (forall j | 0 <= j < i :: !Misfits(inputs, params, j))
                  && CheckType(Get(params, name).value, inputs[i].ty) == Err(expected)
                  && got == JsonTypeName(Get(params, name).value)
  }

  /** The request gives `name` the value `v`: its first entry for that key. */
  ghost predicate Gives(params: Params, name: string, v: Value) {
    exists k :: 0 <= k < |params| && params[k] == (name, v) && forall j | 0 <= j < k :: params[j].0 != name
  }

  lemma {:induction false} GetIff(params: Params, name: string, v: Value)
    ensures Get(params, name) == Some(v) <==> Gives(params, name, v)
  {
    if params == [] {
    } else {
      var rest := params[1..];
      GetIff(rest, name, v);
      if params[0].0 != name {
        if k :| 0 <= k < |rest| && rest[k] == (name, v) && forall j | 0 <= j < k :: rest[j].0 != name {
          assert params[k + 1] == (name, v) && forall j | 0 < j < k + 1 :: params[j].0 == rest[j - 1].0;
        }
        if k :| 0 <= k < |params| && params[k] == (name, v) && forall j | 0 <= j < k :: params[j].0 != name {
          assert rest[k - 1] == (name, v) && forall j | 0 <= j < k - 1 :: rest[j].0 == params[j + 1].0;
        }
      } else if k :| 0 <= k < |params| && params[k] == (name, v) && forall j | 0 <= j < k :: params[j].0 != name {
        assert k == 0;
      }
    }
  }

  /** What a valid request is, in terms of the declared inputs and the given entries alone. */
  ghost predicate Accepts(inputs: seq<FieldSchema>, params: Params) {
    && (forall f | f in inputs && f.required :: exists v :: (f.name, v) in params)
    && (forall p | p in params :: exists f :: f in inputs && f.name == p.0)
    && (forall f, v | f in inputs && Gives(params, f.name, v) :: Conforms(v, f.ty))
  }

  lemma AcceptsIff(inputs: seq<FieldSchema>, params: Params)
    ensures Accepts(inputs, params) <==>
      AllPresent(inputs, params) && AllDeclared(inputs, params) && AllFit(inputs, params)
  {
    PresentIff(inputs, params);
    DeclaredIff(inputs, params);
    FitIff(inputs, params);
  }

  lemma HasKeyIff(params: Params, name: string)
    ensures HasKey(params, name) <==> exists v :: (name, v) in params
  {
    if i :| 0 <= i < |params| && params[i].0 == name {
      assert params[i] == (name, params[i].1);
    }
    if v :| (name, v) in params {
      var i :| 0 <= i < |params| && params[i] == (name, v);
    }
  }

  lemma PresentIff(inputs: seq<FieldSchema>, params: Params)
    ensures AllPresent(inputs, params) <==> forall f | f in inputs && f.required :: exists v :: (f.name, v) in params
  {
    hide HasKey;
    if AllPresent(inputs, params) {
      forall f | f in inputs && f.required ensures exists v :: (f.name, v) in params {
        var i :| 0 <= i < |inputs| && inputs[i] == f;
        assert !Lacks(inputs, params, i);
        HasKeyIff(params, f.name);
      }
    }
    if forall f | f in inputs && f.required :: exists v :: (f.name, v) in params {
      forall i | 0 <= i < |inputs| ensures !Lacks(inputs, params, i) {
        assert inputs[i] in inputs;
        HasKeyIff(params, inputs[i].name);
      }
    }
  }

  lemma DeclaredIff(inputs: seq<FieldSchema>, params: Params)
    ensures AllDeclared(inputs, params) <==> forall p | p in params :: exists f :: f in inputs && f.name == p.0
  {
    forall name ensures Declares(inputs, name) <==> exists f :: f in inputs && f.name == name {
      forall i | 0 <= i < |inputs| && inputs[i].name == name ensures inputs[i] in inputs {
      }
    }
    if forall p | p in params :: exists f :: f in inputs && f.name == p.0 {
      forall i | 0 <= i < |params| ensures Declares(inputs, params[i].0) {
        assert params[i] in params;
      }
    }
  }

  lemma FitIff(inputs: seq<FieldSchema>, params: Params)
    ensures AllFit(inputs, params) <==> forall f, v | f in inputs && Gives(params, f.name, v) :: Conforms(v, f.ty)
  {
    hide Gives, Conforms, Get, CheckType;
    if AllFit(inputs, params) {
      forall f, v | f in inputs && Gives(params, f.name, v) ensures Conforms(v, f.ty) {
        var i :| 0 <= i < |inputs| && inputs[i] == f;
        assert !Misfits(inputs, params, i);
        GetIff(params, f.name, v);
        CheckTypeIff(v, f.ty);
      }
    }
    if forall f, v | f in inputs && Gives(params, f.name, v) :: Conforms(v, f.ty) {
      forall i | 0 <= i < |inputs| ensures !Misfits(inputs, params, i) {
        var f, got := inputs[i], Get(params, inputs[i].name);
        assert f in inputs;
        if got.Some? {
          GetIff(params, f.name, got.value);
          CheckTypeIff(got.value, f.ty);
        }
      }
    }
  }

  /**
   * Succeeds exactly when the required names are among the keys, the keys among
   * the declared names, and every present value conforms; otherwise reports
   * missing before unknown before mistyped.
   */
  method ValidateParams(inputs: seq<FieldSchema>, params: Params) returns (r: Result<(), ParamError>)
    ensures r.Ok? <==> Accepts(inputs, params)
    ensures r.Err? ==> Explains(inputs, params, r.error)
  {
    AcceptsIff(inputs, params);
    for i := 0 to |inputs|
      invariant forall j | 0 <= j < i :: !Lacks(inputs, params, j)
    {
      if inputs[i].required && !HasKey(params, inputs[i].name) {
        assert Lacks(inputs, params, i);
        return Err(MissingRequired(inputs[i].name));
      }
    }
    for i := 0 to |params|
      invariant forall j | 0 <= j < i :: Declares(inputs, params[j].0)
    {
      if !Declares(inputs, params[i].0) {
        return Err(UnknownParam(params[i].0));
      }
    }
    for i := 0 to |inputs|
      invariant forall j | 0 <= j < i :: !Misfits(inputs, params, j)
    {
      var v := Get(params, inputs[i].name);
      if v.Some? {
        var check := CheckType(v.value, inputs[i].ty);
        if check.Err? {
          assert Misfits(inputs, params, i);
          return Err(Mistyped(inputs[i].name, check.error, JsonTypeName(v.value)));
        }
      }
    }
    return Ok(());
  }

  /** Widening declared types never turns accepted parameters away. */
  lemma WiderInputsStillFit(inputs: seq<FieldSchema>, wider: seq<FieldSchema>, params: Params)
    requires |inputs| == |wider| && AllPresent(inputs, params) && AllDeclared(inputs, params) && AllFit(inputs, params)
    requires forall i | 0 <= i < |inputs| ::
      wider[i].name == inputs[i].name && (wider[i].required ==> inputs[i].required) && Widens(inputs[i].ty, wider[i].ty)
    ensures AllPresent(wider, params) && AllDeclared(wider, params) && AllFit(wider, params)
  {
    forall i | 0 <= i < |wider| ensures !Lacks(wider, params, i) && !Misfits(wider, params, i) {
      assert !Lacks(inputs, params, i) && !Misfits(inputs, params, i);
      var v := Get(params, inputs[i].name);
      if v.Some? {
        WidensSound(inputs[i].ty, wider[i].ty, v.value);
      }
    }
    forall i | 0 <= i < |params| ensures Declares(wider, params[i].0) {
      assert Declares(inputs, params[i].0);
      var j :| 0 <= j < |inputs| && inputs[j].name == params[i].0;
      assert wider[j].name == params[i].0;
    }
  }
}
