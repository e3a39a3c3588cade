/** `Entities.serializeDefaultValue`: the JSON form of a synched-data
    field's default value. */
module DefaultValues {
  import opened Options
  import opened Json

  /** The default values a synched-data field can hold, one variant per
      branch of the serialiser. `EnumConst` covers `Pose`, `Direction` and
      every other enum constant: each is written as its name. */
  datatype Value =
    | Null
    | Bool(b: bool)
    | Number(n: Num)
    | Str(s: string)
    | Optional(content: Option<Value>)
    | OptionalInt(intContent: Option<int>)
    | ItemStack(isEmpty: bool, itemKey: Option<string>, count: int)
    | BlockPos(x: int, y: int, z: int)
    | BlockState(blockKey: Option<string>)
    | Rotations(rx: real, ry: real, rz: real)
    | Component(text: string)
    | Holder(key: Option<string>)
    | List(items: seq<Value>)
    | Vector3f(vx: real, vy: real, vz: real)
    | Quaternionf(qx: real, qy: real, qz: real, qw: real)
    | EnumConst(name: string)
    | Other(simpleName: string)

  /** The kinds of JSON value. */
  datatype Kind = NullKind | BoolKind | NumberKind | StringKind | ArrayKind | ObjectKind

  function KindOf(j: Json): Kind
  {
    match j
    case JNull => NullKind
    case JBool(_) => BoolKind
    case JNumber(_) => NumberKind
    case JString(_) => StringKind
    case JArray(_) => ArrayKind
    case JObject(_) => ObjectKind
  }

  /** The JSON kind each default value is written as: the shape a consumer of
      the entity schema can rely on. */
  function ExpectedKind(v: Value): Kind
  {
    match v
    case Null => NullKind
    case Bool(_) => BoolKind
    case Number(_) => NumberKind
    case List(_) => ArrayKind
    case ItemStack(isEmpty, _, _) => if isEmpty then StringKind else ObjectKind
    case Optional(_) => ObjectKind
    case OptionalInt(_) => ObjectKind
    case BlockPos(_, _, _) => ObjectKind
    case Rotations(_, _, _) => ObjectKind
    case Vector3f(_, _, _) => ObjectKind
    case Quaternionf(_, _, _, _) => ObjectKind
    case _ => StringKind
  }

  function IntMember(key: string, i: int): Member
  {
    Member(key, JNumber(IntNum(i)))
  }

  function FloatMember(key: string, f: real): Member
  {
    Member(key, JNumber(FloatNum(f)))
  }

  /** `serializeDefaultValue`. */
  function SerializeDefaultValue(v: Value): (j: Json)
    ensures WellFormed(j)
    ensures KindOf(j) == ExpectedKind(v)
    decreases v
  {
    match v
    case Null => JNull
    case Bool(b) => JBool(b)
    case Number(n) => JNumber(n)
    case Str(s) => JString(s)
    case Optional(content) =>
      var present := Member("present", JBool(content.Some?));
      (match content
       case None => JObject([present])
       case Some(inner) => JObject([present, Member("value", SerializeDefaultValue(inner))]))
    case OptionalInt(content) =>
      var present := Member("present", JBool(content.Some?));
      (match content
       case None => JObject([present])
       case Some(i) => JObject([present, IntMember("value", i)]))
    case EnumConst(name) => JString(name)
    case ItemStack(isEmpty, itemKey, count) =>
      if isEmpty then JString("empty")
      else JObject([Member("item", JString(itemKey.GetOr("unknown"))), IntMember("count", count)])
    case BlockPos(x, y, z) => JObject([IntMember("x", x), IntMember("y", y), IntMember("z", z)])
    case BlockState(blockKey) => JString(blockKey.GetOr("unknown"))
    case Rotations(x, y, z) => JObject([FloatMember("x", x), FloatMember("y", y), FloatMember("z", z)])
    case Component(text) => JString(text)
    case Holder(key) => JString(key.GetOr("unknown_holder"))
    case List(items) => JArray(seq(|items|, i requires 0 <= i < |items| => SerializeDefaultValue(items[i])))
    case Vector3f(x, y, z) => JObject([FloatMember("x", x), FloatMember("y", y), FloatMember("z", z)])
    case Quaternionf(x, y, z, w) =>
      JObject([FloatMember("x", x), FloatMember("y", y), FloatMember("z", z), FloatMember("w", w)])
    case Other(simpleName) => JString(simpleName)
  }

  /** An `Optional` becomes `{present}` or `{present, value}`: `present` says
      whether there is content, and `value`, there exactly when the content is,
      holds its serialisation. */
  lemma OptionalShape(v: Value)
    requires v.Optional? || v.OptionalInt?
    ensures var j := SerializeDefaultValue(v);
            var has := if v.Optional? then v.content.Some? else v.intContent.Some?;
            && Get(j.members, "present") == Some(JBool(has))
            && (Get(j.members, "value").Some? <==> has)
            && (v.Optional? && has ==> Get(j.members, "value") == Some(SerializeDefaultValue(v.content.value)))
            && (v.OptionalInt? && has ==> Get(j.members, "value") == Some(JNumber(IntNum(v.intContent.value))))
  {
  }

  /** Only null serialises to JSON null; booleans, numbers and strings become
      primitives holding the same value. */
  lemma PrimitivesKeepTheirValue(v: Value)
    ensures SerializeDefaultValue(v) == JNull <==> v == Null
    ensures v.Bool? ==> SerializeDefaultValue(v) == JBool(v.b)
    ensures v.Number? ==> SerializeDefaultValue(v) == JNumber(v.n)
    ensures v.Str? ==> SerializeDefaultValue(v) == JString(v.s)
  {
  }

  /** A list serialises to an array of the same length whose i-th element is
      the serialisation of the i-th item. */
  lemma ListSerializesElementwise(items: seq<Value>)
    ensures var j := SerializeDefaultValue(List(items));
            && |j.items| == |items|
            && forall i :: 0 <= i < |items| ==> j.items[i] == SerializeDefaultValue(items[i])
  {
  }

  /** The string fallbacks: an empty stack, a holder without a key, and enum
      constants by name. */
  lemma StringFallbacks(v: Value)
    ensures v.ItemStack? && v.isEmpty ==> SerializeDefaultValue(v) == JString("empty")
    ensures v.Holder? && v.key.None? ==> SerializeDefaultValue(v) == JString("unknown_holder")
    ensures v.Holder? && v.key.Some? ==> SerializeDefaultValue(v) == JString(v.key.value)
    ensures v.EnumConst? ==> SerializeDefaultValue(v) == JString(v.name)
  {
  }
}
