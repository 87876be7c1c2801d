/** `#[derive(VectorMath)]`: which declarations the derive accepts, the
    error it reports for the others, and the list of items it emits. What
    each emitted item computes is module `VectorOps`. */
module VectorDerive {
  import opened Base

  /** A named field `ident: ty`, its type kept as the text it prints as. */
  datatype Field = Field(ident: string, ty: string)

  datatype Fields =
    | Named(named: seq<Field>)
    | Unnamed(unnamed: seq<string>)
    | Unit

  datatype Data = Struct(fields: Fields) | Enum | Union

  /** The declaration the derive is attached to. */
  datatype DeriveInput = DeriveInput(ident: string, data: Data)

  /** The compile errors the derive reports, with the field position for
      the per-field checks. */
  datatype DeriveError =
    | OnlyForStruct
    | OnlyNamedStruct
    | NoField(structName: string)
    | NotPrimitive(index: nat, ty: string)
    | NotSameType(index: nat, ty: string)

  /** The items of the expansion, in the order they are emitted. */
  datatype Item =
    | NewFn | DotFn | LengthSquaredFn | LengthFn | NormalizedFn | IsZeroFn
    | MinElementFn | MaxElementFn | MapFn
    | CrossFn
    | FromArrayImpl | AddImpl | AddAssignImpl | SubImpl | SubAssignImpl | NegImpl
    | MulScalarImpl | MulAssignImpl | ScalarMulImpl | DivImpl | DivAssignImpl
    | PartialEqImpl | PartialOrdImpl | DebugImpl | DisplayImpl | IndexImpl | IndexMutImpl

  /** A successful expansion: the struct name, its field names in
      declaration order, the shared element type and the emitted items. */
  datatype Generated = Generated(name: string, fieldNames: seq<string>, elemTy: string, items: seq<Item>)

  /** The fourteen type names a field may have. */
  const PRIMITIVE_TYPES: seq<string> :=
    ["i8", "i16", "i32", "i64", "i128", "isize",
     "u8", "u16", "u32", "u64", "u128", "usize",
     "f32", "f64"]

  /** The text of the compile error. */
  function Message(e: DeriveError): string
  {
    match e
    case OnlyForStruct => "VectorMath only for struct"
    case OnlyNamedStruct => "VectorMath only use to struct (e.g struct Vec3{ x:f32, y:f32, z:f32})"
    case NoField(name) => "no field in structure: " + name
    case NotPrimitive(_, ty) => "field must be primitive type, except: " + ty
    case NotSameType(_, ty) => "type must be same type " + ty
  }

  const INHERENT_ITEMS: seq<Item> :=
    [NewFn, DotFn, LengthSquaredFn, LengthFn, NormalizedFn, IsZeroFn, MinElementFn, MaxElementFn, MapFn]

  const TRAIT_ITEMS: seq<Item> :=
    [FromArrayImpl, AddImpl, AddAssignImpl, SubImpl, SubAssignImpl, NegImpl,
     MulScalarImpl, MulAssignImpl, ScalarMulImpl, DivImpl, DivAssignImpl,
     PartialEqImpl, PartialOrdImpl, DebugImpl, DisplayImpl, IndexImpl, IndexMutImpl]

  /** The items emitted for a struct of `n` fields: the inherent methods,
      then `cross` only for three fields, then the trait impls. */
  function EmittedItems(n: nat): seq<Item>
  {
    INHERENT_ITEMS + (if n == 3 then [CrossFn] else []) + TRAIT_ITEMS
  }

  /** `cross` is emitted exactly for three fields; every other item always. */
  lemma CrossEmittedIffThree(n: nat)
    ensures CrossFn in EmittedItems(n) <==> n == 3
    ensures forall it | it != CrossFn :: it in EmittedItems(n)
  {
    assert CrossFn !in INHERENT_ITEMS && CrossFn !in TRAIT_ITEMS;
    forall it | it != CrossFn
      ensures it in EmittedItems(n)
    {
      assert it in INHERENT_ITEMS || it in TRAIT_ITEMS;
    }
  }

  /** The checks of one field against the first field's type `elemTy`:
      the primitive check comes before the same-type check. */
  function FieldError(fields: seq<Field>, elemTy: string, i: nat): Option<DeriveError>
    requires i < |fields|
  {
    if fields[i].ty !in PRIMITIVE_TYPES then Some(NotPrimitive(i, fields[i].ty))
    else if fields[i].ty != elemTy then Some(NotSameType(i, fields[i].ty))
    else None
  }

  /** The error of the first failing field from position `i` on, if any. */
  function CheckFrom(fields: seq<Field>, elemTy: string, i: nat): Option<DeriveError>
    requires i <= |fields|
    decreases |fields| - i
  {
    if i == |fields| then None
    else if FieldError(fields, elemTy, i).Some? then FieldError(fields, elemTy, i)
    else CheckFrom(fields, elemTy, i + 1)
  }

  function FieldNames(fields: seq<Field>): (names: seq<string>)
    ensures |names| == |fields| && forall k | 0 <= k < |fields| :: names[k] == fields[k].ident
  {
    seq(|fields|, k requires 0 <= k < |fields| => fields[k].ident)
  }

  /** The validation sequence: not a struct, then not a named struct, then
      no field, then the first failing field. */
  function Validate(input: DeriveInput): Result<Generated, DeriveError>
  {
    if !input.data.Struct? then Err(OnlyForStruct)
    else if !input.data.fields.Named? then Err(OnlyNamedStruct)
    else
      var fields := input.data.fields.named;
      if |fields| == 0 then Err(NoField(input.ident))
      else
        match CheckFrom(fields, fields[0].ty, 0)
        case Some(e) => Err(e)
        case None => Ok(Generated(input.ident, FieldNames(fields), fields[0].ty, EmittedItems(|fields|)))
  }

  /** `vector_math_impl`: the field loop of the source with its early
      returns. */
  method VectorMathImpl(input: DeriveInput) returns (r: Result<Generated, DeriveError>)
    ensures r == Validate(input)
  {
    var fields: seq<Field>;
    match input.data {
      case Struct(Named(named)) =>
        fields := named;
      case Struct(_) =>
        return Err(OnlyNamedStruct);
      case _ =>
        return Err(OnlyForStruct);
    }
    if |fields| == 0 {
      return Err(NoField(input.ident));
    }
    var elemTy := fields[0].ty;
    for i := 0 to |fields|
      invariant CheckFrom(fields, elemTy, 0) == CheckFrom(fields, elemTy, i)
    {
      var typeStr := fields[i].ty;
      if typeStr !in PRIMITIVE_TYPES {
        return Err(NotPrimitive(i, typeStr));
      }
      if typeStr != elemTy {
        return Err(NotSameType(i, typeStr));
      }
    }
    r := Ok(Generated(input.ident, FieldNames(fields), elemTy, EmittedItems(|fields|)));
  }

  /** A declaration the derive accepts, stated without the loop: a struct
      with at least one named field, every field of one primitive type. */
  predicate Accepted(input: DeriveInput)
  {
    input.data.Struct? && input.data.fields.Named? && |input.data.fields.named| >= 1 &&
    var fields := input.data.fields.named;
    forall k | 0 <= k < |fields| :: fields[k].ty in PRIMITIVE_TYPES && fields[k].ty == fields[0].ty
  }

  lemma {:induction false} CheckFromNoneIff(fields: seq<Field>, elemTy: string, i: nat)
    requires i <= |fields|
    ensures CheckFrom(fields, elemTy, i).None? <==>
      forall k | i <= k < |fields| :: fields[k].ty in PRIMITIVE_TYPES && fields[k].ty == elemTy
    decreases |fields| - i
  {
    if i < |fields| {
      CheckFromNoneIff(fields, elemTy, i + 1);
    }
  }

  /** A reported field error names the first failing field from `i` on,
      with the reason that field fails. */
  lemma {:induction false} CheckFromFindsFirst(fields: seq<Field>, elemTy: string, i: nat)
    requires i <= |fields| && CheckFrom(fields, elemTy, i).Some?
    ensures var e := CheckFrom(fields, elemTy, i).value;
      (e.NotPrimitive? || e.NotSameType?) && i <= e.index < |fields| && e.ty == fields[e.index].ty &&
      (forall k | i <= k < e.index :: fields[k].ty in PRIMITIVE_TYPES && fields[k].ty == elemTy) &&
      (e.NotPrimitive? <==> fields[e.index].ty !in PRIMITIVE_TYPES) &&
      (e.NotSameType? ==> fields[e.index].ty != elemTy)
    decreases |fields| - i
  {
    if FieldError(fields, elemTy, i).None? {
      CheckFromFindsFirst(fields, elemTy, i + 1);
    }
  }

  /** The derive succeeds exactly on accepted declarations, and then
      reports the fields in declaration order and the first field's type. */
  lemma ValidateAcceptsIff(input: DeriveInput)
    ensures Validate(input).Ok? <==> Accepted(input)
    ensures Validate(input).Ok? ==>
      var fields := input.data.fields.named;
      Validate(input).value == Generated(input.ident, FieldNames(fields), fields[0].ty, EmittedItems(|fields|))
  {
    if input.data.Struct? && input.data.fields.Named? && |input.data.fields.named| >= 1 {
      var fields := input.data.fields.named;
      CheckFromNoneIff(fields, fields[0].ty, 0);
    }
  }

  /** The errors come in the source's order: the kind of declaration
      first, then emptiness, then the first field that is not primitive or
      not of the first field's type. */
  lemma ValidateErrorOrder(input: DeriveInput)
    ensures !input.data.Struct? ==> Validate(input) == Err(OnlyForStruct)
    ensures input.data.Struct? && !input.data.fields.Named? ==> Validate(input) == Err(OnlyNamedStruct)
    ensures input.data == Struct(Named([])) ==> Validate(input) == Err(NoField(input.ident))
    ensures input.data.Struct? && input.data.fields.Named? && |input.data.fields.named| >= 1 && Validate(input).Err? ==>
      var fields := input.data.fields.named;
      var e := Validate(input).error;
      (e.NotPrimitive? || e.NotSameType?) && e.index < |fields| && e.ty == fields[e.index].ty &&
      (forall k | 0 <= k < e.index :: fields[k].ty in PRIMITIVE_TYPES && fields[k].ty == fields[0].ty) &&
      (e.NotPrimitive? <==> fields[e.index].ty !in PRIMITIVE_TYPES) &&
      (e.NotSameType? ==> fields[e.index].ty != fields[0].ty)
  {
    if input.data.Struct? && input.data.fields.Named? && |input.data.fields.named| >= 1 && Validate(input).Err? {
      var fields := input.data.fields.named;
      CheckFromFindsFirst(fields, fields[0].ty, 0);
    }
  }

  /** The compile error a rejected declaration reports: the kind of
      declaration it is, the struct's name when it has no field, and the type
      text of the first failing field with the check it failed. */
  lemma RejectionMessages(input: DeriveInput)
    requires Validate(input).Err?
    ensures !input.data.Struct? ==> Message(Validate(input).error) == "VectorMath only for struct"
    ensures input.data.Struct? && !input.data.fields.Named? ==>
      Message(Validate(input).error) == "VectorMath only use to struct (e.g struct Vec3{ x:f32, y:f32, z:f32})"
    ensures input.data == Struct(Named([])) ==>
      Message(Validate(input).error) == "no field in structure: " + input.ident
    ensures input.data.Struct? && input.data.fields.Named? && |input.data.fields.named| >= 1 ==>
      var fields := input.data.fields.named;
      exists k | 0 <= k < |fields| ::
        (forall j | 0 <= j < k :: fields[j].ty in PRIMITIVE_TYPES && fields[j].ty == fields[0].ty) &&
        Message(Validate(input).error) ==
          (if fields[k].ty !in PRIMITIVE_TYPES then "field must be primitive type, except: "
           else "type must be same type ") + fields[k].ty
  {
    ValidateErrorOrder(input);
    if input.data.Struct? && input.data.fields.Named? && |input.data.fields.named| >= 1 {
      var fields := input.data.fields.named;
      var e := Validate(input).error;
      assert e.index < |fields|;
      assert forall j | 0 <= j < e.index :: fields[j].ty in PRIMITIVE_TYPES && fields[j].ty == fields[0].ty;
    }
  }

  function Vec3Input(ty: string): DeriveInput
  {
    DeriveInput("Vec3", Struct(Named([Field("x", ty), Field("y", ty), Field("z", ty)])))
  }

  /** `Vec2`, `Vec3` and `Vec4` of `f32` are accepted; only `Vec3` gets
      `cross`. */
  lemma FloatVectorsAccepted()
    ensures Validate(DeriveInput("Vec2", Struct(Named([Field("x", "f32"), Field("y", "f32")])))).Ok?
    ensures Validate(Vec3Input("f32")).Ok? && CrossFn in Validate(Vec3Input("f32")).value.items
    ensures Validate(DeriveInput("Vec4", Struct(Named([Field("x", "f32"), Field("y", "f32"), Field("z", "f32"), Field("w", "f32")])))).Ok?
    ensures CrossFn !in Validate(DeriveInput("Vec4", Struct(Named([Field("x", "f32"), Field("y", "f32"), Field("z", "f32"), Field("w", "f32")])))).value.items
  {
    var v2 := DeriveInput("Vec2", Struct(Named([Field("x", "f32"), Field("y", "f32")])));
    var v4 := DeriveInput("Vec4", Struct(Named([Field("x", "f32"), Field("y", "f32"), Field("z", "f32"), Field("w", "f32")])));
    ValidateAcceptsIff(v2);
    ValidateAcceptsIff(Vec3Input("f32"));
    ValidateAcceptsIff(v4);
    CrossEmittedIffThree(3);
    CrossEmittedIffThree(4);
  }

  /** Mixed primitive types fail at the first field that differs, even when
      a later field is not primitive at all. */
  lemma MixedTypesRejected()
    ensures Validate(DeriveInput("P", Struct(Named([Field("x", "f32"), Field("y", "f64"), Field("z", "String")]))))
         == Err(NotSameType(1, "f64"))
  {
  }

  /** A non-primitive type is reported as such even on field 0, whose type
      every other field is compared with. */
  lemma NonPrimitiveFirstField()
    ensures Validate(DeriveInput("P", Struct(Named([Field("x", "String"), Field("y", "String")]))))
         == Err(NotPrimitive(0, "String"))
  {
  }
}
