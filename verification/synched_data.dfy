/** The synched-data part of `Entities`: naming accessors by walking the
    class hierarchy (`getAccessorNames`), naming serializers, and the two
    branches of `extractSynchedData`. */
module SynchedData {
  import opened Options
  import opened Text
  import opened Assignments
  import opened Json
  import opened DefaultValues
  import opened SortedSets

  /** An `EntityDataAccessor`: its id and the serialized id of its
      serializer (-1 for a serializer that is not registered). */
  datatype Accessor = Accessor(id: int, serializerId: int)

  /** A declared field: its name, whether its type is an
      `EntityDataAccessor`, and the accessor `field.get(null)` yields. None
      stands for a null value and for a non-static field, whose read throws
      and is skipped. */
  datatype Field = Field(name: string, isAccessorType: bool, staticValue: Option<Accessor>)

  /** A class: whether it is `Entity` or a subclass of it, and its declared
      fields in the order `declaredFields` returns them. A hierarchy is a `seq<ClassInfo>`: a class
      followed by its superclasses, most derived first. */
  datatype ClassInfo = ClassInfo(isEntity: bool, fields: seq<Field>)

  /** A name-table entry: the accessor and its normalised field name. */
  type Named = (Accessor, string)

  const DataPrefix := "data_"

  /** `field.name.lowercase().removePrefix("data_")`. */
  function AccessorName(fieldName: string): (name: string)
    ensures forall i :: 0 <= i < |name| ==> !IsUpper(name[i])
    ensures DataPrefix <= Lowercase(fieldName) ==> DataPrefix + name == Lowercase(fieldName)
    ensures !(DataPrefix <= Lowercase(fieldName)) ==> name == Lowercase(fieldName)
  {
    RemovePrefix(Lowercase(fieldName), DataPrefix)
  }

  /** Lowercasing works character by character, so it distributes over
      concatenation. */
  lemma LowercaseAppend(a: string, b: string)
    ensures Lowercase(a + b) == Lowercase(a) + Lowercase(b)
  {
    var whole := Lowercase(a + b);
    var parts := Lowercase(a) + Lowercase(b);
    forall i | 0 <= i < |a + b|
      ensures whole[i] == parts[i]
    {
      assert whole[i] == LowerChar((a + b)[i]);
      if i < |a| {
        assert (a + b)[i] == a[i] && parts[i] == Lowercase(a)[i];
      } else {
        assert (a + b)[i] == b[i - |a|] && parts[i] == Lowercase(b)[i - |a|];
      }
    }
  }

  /** A `DATA_` field is named by the rest of its name, lowercased; only one
      leading `data_` is removed, so `DATA_DATA_X` is named `data_x`. */
  lemma DataFieldName(rest: string)
    ensures AccessorName("DATA_" + rest) == Lowercase(rest)
  {
    LowercaseAppend("DATA_", rest);
    assert Lowercase("DATA_") == DataPrefix;
    assert DataPrefix <= DataPrefix + Lowercase(rest);
  }

  /** The writes `accessors[accessor.id()] = Pair(accessor, name)` one class
      performs, in the order `declaredFields` returns the fields. */
  function DeclaredAccessors(fields: seq<Field>): (ws: seq<(int, Named)>)
    ensures |ws| <= |fields|
    ensures forall i :: 0 <= i < |ws| ==> ws[i].1.0.id == ws[i].0
  {
    if fields == [] then []
    else
      var f := fields[0];
      var own := if f.isAccessorType && f.staticValue.Some?
                 then [(f.staticValue.value.id, (f.staticValue.value, AccessorName(f.name)))]
                 else [];
      own + DeclaredAccessors(fields[1..])
  }

  /** Field `f` holds accessor `acc`: its type is an `EntityDataAccessor` and
      its static value is `acc`. */
  predicate Declares(f: Field, acc: Accessor)
  {
    f.isAccessorType && f.staticValue == Some(acc)
  }

  /** The fields of one class are scanned one after another: the writes for
      `a + b` are those for `a` followed by those for `b`. */
  lemma {:induction false} DeclaredAccessorsAppend(a: seq<Field>, b: seq<Field>)
    ensures DeclaredAccessors(a + b) == DeclaredAccessors(a) + DeclaredAccessors(b)
  {
    if a == [] {
      assert a + b == b;
    } else {
      assert (a + b)[0] == a[0] && (a + b)[1..] == a[1..] + b;
      DeclaredAccessorsAppend(a[1..], b);
    }
  }

  /** A class writes `(acc.id, (acc, name))` exactly for each field declaring
      an accessor `acc`, `name` being that field's normalised name. */
  lemma {:induction false} DeclaredAccessorsContents(fields: seq<Field>)
    ensures forall id, acc, name :: (id, (acc, name)) in DeclaredAccessors(fields) <==>
              exists j :: 0 <= j < |fields| && Declares(fields[j], acc) && id == acc.id && name == AccessorName(fields[j].name)
  {
    if fields != [] {
      DeclaredAccessorsContents(fields[1..]);
      forall id, acc, name
        ensures (id, (acc, name)) in DeclaredAccessors(fields) <==>
                exists j :: 0 <= j < |fields| && Declares(fields[j], acc) && id == acc.id && name == AccessorName(fields[j].name)
      {
        if exists j :: 0 <= j < |fields| && Declares(fields[j], acc) && id == acc.id && name == AccessorName(fields[j].name) {
          var j :| 0 <= j < |fields| && Declares(fields[j], acc) && id == acc.id && name == AccessorName(fields[j].name);
          if j > 0 {
            assert fields[1..][j - 1] == fields[j];
          }
        }
        if (id, (acc, name)) in DeclaredAccessors(fields[1..]) {
          var j :| 0 <= j < |fields[1..]| && Declares(fields[1..][j], acc) && id == acc.id
                   && name == AccessorName(fields[1..][j].name);
          assert fields[j + 1] == fields[1..][j];
        }
      }
    }
  }

  /** The accessor ids a run of classes declares. */
  function DeclaredIds(classes: seq<ClassInfo>): (ids: set<int>)
    ensures forall c, id :: 0 <= c < |classes| && id in KeysOf(DeclaredAccessors(classes[c].fields)) ==> id in ids
  {
    if classes == [] then {}
    else
      var own := set id | id in KeysOf(DeclaredAccessors(classes[0].fields));
      assert forall c :: 1 <= c < |classes| ==> classes[c] == classes[1..][c - 1];
      own + DeclaredIds(classes[1..])
  }

  /** The classes the walk visits: from the class upwards while each is
      assignable to `Entity`. */
  function Walked(hierarchy: seq<ClassInfo>): (ws: seq<ClassInfo>)
    ensures |ws| <= |hierarchy| && ws == hierarchy[..|ws|]
    ensures forall i :: 0 <= i < |ws| ==> ws[i].isEntity
    ensures |ws| < |hierarchy| ==> !hierarchy[|ws|].isEntity
  {
    if hierarchy == [] || !hierarchy[0].isEntity then [] else [hierarchy[0]] + Walked(hierarchy[1..])
  }

  /** The `while (clazz != null && Entity::class.java.isAssignableFrom(clazz))`
      loop, continuing from the table `m`. */
  function Walk(m: map<int, Named>, hierarchy: seq<ClassInfo>): map<int, Named>
    decreases |hierarchy|
  {
    if hierarchy == [] || !hierarchy[0].isEntity then m
    else Walk(Assign(m, DeclaredAccessors(hierarchy[0].fields)), hierarchy[1..])
  }

  /** `getAccessorNames`: accessor id -> (accessor, name). Its ids are exactly
      those the walked classes declare, and each entry is filed under its own
      accessor's id. */
  function GetAccessorNames(hierarchy: seq<ClassInfo>): (names: map<int, Named>)
    ensures names.Keys == DeclaredIds(Walked(hierarchy))
    ensures forall id :: id in names ==> names[id].0.id == id
  {
    WalkDomain(map[], hierarchy);
    WalkKeysOwnIds(map[], hierarchy);
    Walk(map[], hierarchy)
  }

  /** The walk never looks past the first class that is not an entity: the
      table depends only on the walked prefix of the hierarchy. */
  lemma AccessorNamesReadOnlyWalked(hierarchy: seq<ClassInfo>)
    ensures GetAccessorNames(hierarchy) == GetAccessorNames(Walked(hierarchy))
  {
    WalkStopsAtFirstNonEntity(map[], hierarchy);
  }

  lemma {:induction false} WalkDomain(m: map<int, Named>, hierarchy: seq<ClassInfo>)
    ensures Walk(m, hierarchy).Keys == m.Keys + DeclaredIds(Walked(hierarchy))
    decreases |hierarchy|
  {
    if hierarchy != [] && hierarchy[0].isEntity {
      var own := DeclaredAccessors(hierarchy[0].fields);
      WalkDomain(Assign(m, own), hierarchy[1..]);
      var ws := Walked(hierarchy);
      assert ws[0] == hierarchy[0] && ws[1..] == Walked(hierarchy[1..]);
    }
  }

  lemma {:induction false} WalkKeysOwnIds(m: map<int, Named>, hierarchy: seq<ClassInfo>)
    requires forall id :: id in m ==> m[id].0.id == id
    ensures forall id :: id in Walk(m, hierarchy) ==> Walk(m, hierarchy)[id].0.id == id
    decreases |hierarchy|
  {
    if hierarchy != [] && hierarchy[0].isEntity {
      var ws := DeclaredAccessors(hierarchy[0].fields);
      AssignKeepsInvariant(m, ws, (id: int, n: Named) => n.0.id == id);
      WalkKeysOwnIds(Assign(m, ws), hierarchy[1..]);
    }
  }

  lemma {:induction false} WalkStopsAtFirstNonEntity(m: map<int, Named>, hierarchy: seq<ClassInfo>)
    ensures Walk(m, hierarchy) == Walk(m, Walked(hierarchy))
    decreases |hierarchy|
  {
    if hierarchy != [] && hierarchy[0].isEntity {
      var ws := Walked(hierarchy);
      assert ws[0] == hierarchy[0] && ws[1..] == Walked(hierarchy[1..]);
      WalkStopsAtFirstNonEntity(Assign(m, DeclaredAccessors(hierarchy[0].fields)), hierarchy[1..]);
    }
  }

  /** A table entry no walked class declares survives the walk. */
  lemma {:induction false} WalkKeepsUndeclared(m: map<int, Named>, hierarchy: seq<ClassInfo>, id: int)
    requires id in m && id !in DeclaredIds(Walked(hierarchy))
    ensures id in Walk(m, hierarchy) && Walk(m, hierarchy)[id] == m[id]
    decreases |hierarchy|
  {
    if hierarchy != [] && hierarchy[0].isEntity {
      var ws := Walked(hierarchy);
      assert ws[0] == hierarchy[0] && ws[1..] == Walked(hierarchy[1..]);
      var own := DeclaredAccessors(hierarchy[0].fields);
      UnwrittenKeepsValue(m, own, id);
      WalkKeepsUndeclared(Assign(m, own), hierarchy[1..], id);
    }
  }

  /** The walk visits every class of an all-entity run. */
  lemma WalkedEntityRun(classes: seq<ClassInfo>)
    requires forall k :: 0 <= k < |classes| ==> classes[k].isEntity
    ensures Walked(classes) == classes
  {
  }

  /** Over a run of entity classes, the last declaration of an id in a class
      that no later class redeclares is the one the table keeps. */
  lemma {:induction false} EntityRunLastDeclarationWins(m: map<int, Named>, classes: seq<ClassInfo>, c: int, i: int)
    requires forall k :: 0 <= k < |classes| ==> classes[k].isEntity
    requires 0 <= c < |classes|
    requires 0 <= i < |DeclaredAccessors(classes[c].fields)|
    requires var ws := DeclaredAccessors(classes[c].fields);
             forall j :: i < j < |ws| ==> ws[j].0 != ws[i].0
    requires DeclaredAccessors(classes[c].fields)[i].0 !in DeclaredIds(classes[c + 1..])
    ensures var w := DeclaredAccessors(classes[c].fields)[i];
            w.0 in Walk(m, classes) && Walk(m, classes)[w.0] == w.1
    decreases |classes|
  {
    var rest := classes[1..];
    var own := DeclaredAccessors(classes[0].fields);
    assert Walk(m, classes) == Walk(Assign(m, own), rest);
    if c == 0 {
      LastWriteWins(m, own, i);
      WalkedEntityRun(rest);
      WalkKeepsUndeclared(Assign(m, own), rest, own[i].0);
    } else {
      assert classes[c] == rest[c - 1];
      assert classes[c + 1..] == rest[c..];
      EntityRunLastDeclarationWins(Assign(m, own), rest, c - 1, i);
    }
  }

  /** The walk keeps, for an id, the last declaration in the most-super
      walked class that declares it, whatever the table it starts from. */
  lemma WalkLastDeclarationWins(m: map<int, Named>, hierarchy: seq<ClassInfo>, c: int, i: int)
    requires 0 <= c < |Walked(hierarchy)|
    requires 0 <= i < |DeclaredAccessors(Walked(hierarchy)[c].fields)|
    requires var ws := DeclaredAccessors(Walked(hierarchy)[c].fields);
             forall j :: i < j < |ws| ==> ws[j].0 != ws[i].0
    requires DeclaredAccessors(Walked(hierarchy)[c].fields)[i].0 !in DeclaredIds(Walked(hierarchy)[c + 1..])
    ensures var w := DeclaredAccessors(Walked(hierarchy)[c].fields)[i];
            w.0 in Walk(m, hierarchy) && Walk(m, hierarchy)[w.0] == w.1
  {
    WalkStopsAtFirstNonEntity(m, hierarchy);
    EntityRunLastDeclarationWins(m, Walked(hierarchy), c, i);
  }

  /** Later writes overwrite earlier ones as the walk climbs, so when several
      classes declare the same accessor id, the table keeps the last
      declaration in the most-super class that declares it. */
  lemma MostSuperDeclarationWins(hierarchy: seq<ClassInfo>, c: int, i: int)
    requires 0 <= c < |Walked(hierarchy)|
    requires 0 <= i < |DeclaredAccessors(Walked(hierarchy)[c].fields)|
    requires var ws := DeclaredAccessors(Walked(hierarchy)[c].fields);
             forall j :: i < j < |ws| ==> ws[j].0 != ws[i].0
    requires DeclaredAccessors(Walked(hierarchy)[c].fields)[i].0 !in DeclaredIds(Walked(hierarchy)[c + 1..])
    ensures var w := DeclaredAccessors(Walked(hierarchy)[c].fields)[i];
            GetAccessorNames(hierarchy)[w.0] == w.1
  {
    WalkLastDeclarationWins(map[], hierarchy, c, i);
  }

  /** One declared field of a serializer registry class: its name, whether its
      type is an `EntityDataSerializer`, and the serialized id of its value
      (None for a null value). */
  datatype SerializerField = SerializerField(name: string, isSerializerType: bool, serializedId: Option<int>)

  /** Field `f` registers serializer id `id`: its type is an
      `EntityDataSerializer`, its value is not null, and `getSerializedId`
      gives `id`, which is not -1. */
  predicate Registers(f: SerializerField, id: int)
  {
    f.isSerializerType && f.serializedId == Some(id) && id != -1
  }

  /** The writes `names[id] = field.name.lowercase()`, in the order
      `declaredFields` returns the fields. */
  function SerializerWrites(fields: seq<SerializerField>): (ws: seq<(int, string)>)
    ensures forall i :: 0 <= i < |ws| ==> ws[i].0 != -1
    ensures forall i :: 0 <= i < |ws| ==> forall j :: 0 <= j < |ws[i].1| ==> !IsUpper(ws[i].1[j])
  {
    if fields == [] then []
    else
      var f := fields[0];
      var own := if f.isSerializerType && f.serializedId.Some? && f.serializedId.value != -1
                 then [(f.serializedId.value, Lowercase(f.name))]
                 else [];
      own + SerializerWrites(fields[1..])
  }

  lemma {:induction false} SerializerWritesAppend(a: seq<SerializerField>, b: seq<SerializerField>)
    ensures SerializerWrites(a + b) == SerializerWrites(a) + SerializerWrites(b)
  {
    if a == [] {
      assert a + b == b;
    } else {
      assert (a + b)[0] == a[0] && (a + b)[1..] == a[1..] + b;
      SerializerWritesAppend(a[1..], b);
    }
  }

  /** Exactly the registered ids are written. */
  lemma {:induction false} SerializerWritesKeys(fields: seq<SerializerField>)
    ensures forall id :: id in KeysOf(SerializerWrites(fields)) <==> exists j :: 0 <= j < |fields| && Registers(fields[j], id)
  {
    if fields != [] {
      var f := fields[0];
      var own := if f.isSerializerType && f.serializedId.Some? && f.serializedId.value != -1
                 then [(f.serializedId.value, Lowercase(f.name))]
                 else [];
      SerializerWritesKeys(fields[1..]);
      KeysOfAppend(own, SerializerWrites(fields[1..]));
      assert KeysOf(own) == if own == [] then [] else [f.serializedId.value];
      forall id
        ensures id in KeysOf(SerializerWrites(fields)) <==> exists j :: 0 <= j < |fields| && Registers(fields[j], id)
      {
        if exists j :: 0 <= j < |fields| && Registers(fields[j], id) {
          var j :| 0 <= j < |fields| && Registers(fields[j], id);
          if j > 0 {
            assert fields[1..][j - 1] == fields[j];
          }
        }
        if exists j :: 0 <= j < |fields[1..]| && Registers(fields[1..][j], id) {
          var j :| 0 <= j < |fields[1..]| && Registers(fields[1..][j], id);
          assert fields[j + 1] == fields[1..][j];
        }
      }
    }
  }

  /** The `serializerNames` table: its keys are exactly the ids some field
      registers (so never -1), and its names are lowercase. */
  function SerializerNames(fields: seq<SerializerField>): (names: map<int, string>)
    ensures forall id :: id in names <==> exists j :: 0 <= j < |fields| && Registers(fields[j], id)
    ensures -1 !in names
    ensures forall id :: id in names ==> forall j :: 0 <= j < |names[id]| ==> !IsUpper(names[id][j])
  {
    var ws := SerializerWrites(fields);
    SerializerWritesKeys(fields);
    AssignKeepsInvariant(map[], ws, (id: int, n: string) => id != -1 && forall j :: 0 <= j < |n| ==> !IsUpper(n[j]));
    Assign(map[], ws)
  }

  /** A serializer id is named by the lowercased name of the last field that
      registers it. */
  lemma SerializerNamedByLastField(a: seq<SerializerField>, f: SerializerField, b: seq<SerializerField>, id: int)
    requires Registers(f, id)
    requires forall j :: 0 <= j < |b| ==> !Registers(b[j], id)
    ensures id in SerializerNames(a + [f] + b) && SerializerNames(a + [f] + b)[id] == Lowercase(f.name)
  {
    assert (a + [f] + b)[|a|] == f;
    SerializerWritesAppend(a + [f], b);
    SerializerWritesAppend(a, [f]);
    var wa := SerializerWrites(a);
    var wf := SerializerWrites([f]);
    var wb := SerializerWrites(b);
    assert wf == [(id, Lowercase(f.name))];
    AssignAppend(map[], wa + wf, wb);
    AssignAppend(map[], wa, wf);
    SerializerWritesKeys(b);
    UnwrittenKeepsValue(Assign(map[], wa + wf), wb, id);
  }

  /** `serializerNames[id] ?: "unknown"`. */
  function SerializerName(serializerNames: map<int, string>, id: int): string
  {
    if id in serializerNames then serializerNames[id] else "unknown"
  }

  /** One element of the `synched_data` array. */
  datatype SynchedEntry = SynchedEntry(index: int, name: string, serializer: string, defaultValue: Option<Json>)

  /** The entry the fallback branch writes for table id `id`. */
  function TableEntry(names: map<int, Named>, serializerNames: map<int, string>, id: int): (e: SynchedEntry)
    requires id in names
    ensures e.index == id && e.name == names[id].1 && e.defaultValue.None?
    ensures e.serializer == SerializerName(serializerNames, names[id].0.serializerId)
  {
    SynchedEntry(id, names[id].1, SerializerName(serializerNames, names[id].0.serializerId), None)
  }

  /** The table entries for ids `ks`, in the order of `ks`. */
  function EntriesFor(names: map<int, Named>, serializerNames: map<int, string>, ks: seq<int>): (es: seq<SynchedEntry>)
    requires forall i :: 0 <= i < |ks| ==> ks[i] in names
    ensures |es| == |ks|
    ensures forall i :: 0 <= i < |ks| ==> es[i] == TableEntry(names, serializerNames, ks[i])
  {
    seq(|ks|, i requires 0 <= i < |ks| => TableEntry(names, serializerNames, ks[i]))
  }

  /** `es` lists the accessor table `names`: one entry per id, by ascending
      id, each with the name found for it, the serializer of its accessor and
      no default value. */
  predicate ListsTable(es: seq<SynchedEntry>, names: map<int, Named>, serializerNames: map<int, string>)
  {
    && (forall i, j :: 0 <= i < j < |es| ==> es[i].index < es[j].index)
    && (forall id :: id in names ==> exists i :: 0 <= i < |es| && es[i].index == id)
    && forall i :: 0 <= i < |es| ==>
         && es[i].index in names
         && es[i].name == names[es[i].index].1
         && es[i].serializer == SerializerName(serializerNames, names[es[i].index].0.serializerId)
         && es[i].defaultValue.None?
  }

  /** The fallback branch of `extractSynchedData`, used when the entity cannot
      be instantiated: one entry per id of the name table, in strictly
      ascending index order, without a default value. */
  function FallbackEntries(names: map<int, Named>, serializerNames: map<int, string>): (es: seq<SynchedEntry>)
    ensures ListsTable(es, names, serializerNames)
    ensures forall i :: 0 <= i < |es| ==> es[i] == TableEntry(names, serializerNames, es[i].index)
  {
    var ks := SortedKeys(names.Keys);
    var es := EntriesFor(names, serializerNames, ks);
    FallbackCoversTable(names, serializerNames, ks, es);
    es
  }

  lemma FallbackCoversTable(names: map<int, Named>, serializerNames: map<int, string>, ks: seq<int>,
                            es: seq<SynchedEntry>)
    requires forall x :: x in ks <==> x in names
    requires |es| == |ks|
    requires forall i :: 0 <= i < |ks| ==> es[i].index == ks[i]
    ensures forall id :: id in names <==> exists i :: 0 <= i < |es| && es[i].index == id
  {
    forall id | id in names
      ensures exists i :: 0 <= i < |es| && es[i].index == id
    {
      var i :| 0 <= i < |ks| && ks[i] == id;
      assert es[i].index == id;
    }
  }

  /** An entry of the live entity's `itemsById` array. */
  datatype DataItem = DataItem(accessor: Accessor, initialValue: Value)

  /** The entry for one data item of a live entity: its id, its name from the
      table (`"unknown"` if the walk did not find it), its serializer, and its
      serialised default value. */
  function ItemEntry(item: DataItem, names: map<int, Named>, serializerNames: map<int, string>): (e: SynchedEntry)
    ensures e.index == item.accessor.id
    ensures item.accessor.id !in names ==> e.name == "unknown"
    ensures item.accessor.id in names ==> e.name == names[item.accessor.id].1
    ensures item.accessor.serializerId !in serializerNames ==> e.serializer == "unknown"
    ensures e.defaultValue == Some(SerializeDefaultValue(item.initialValue))
  {
    var id := item.accessor.id;
    SynchedEntry(id, if id in names then names[id].1 else "unknown",
                 SerializerName(serializerNames, item.accessor.serializerId),
                 Some(SerializeDefaultValue(item.initialValue)))
  }

  /** The non-null items, in array order: `Present` keeps each element of a
      concatenation in place. */
  lemma {:induction false} PresentAppend(a: seq<Option<DataItem>>, b: seq<Option<DataItem>>)
    ensures Present(a + b) == Present(a) + Present(b)
  {
    if a == [] {
      assert a + b == b;
    } else {
      assert (a + b)[0] == a[0] && (a + b)[1..] == a[1..] + b;
      PresentAppend(a[1..], b);
    }
  }

  /** A null item contributes nothing; a non-null one contributes itself. */
  lemma PresentOfOne(o: Option<DataItem>)
    ensures o.None? ==> Present([o]) == []
    ensures o.Some? ==> Present([o]) == [o.value]
  {
    assert [o][1..] == [];
  }

  /** The non-null items, in array order. */
  function Present(items: seq<Option<DataItem>>): (ps: seq<DataItem>)
    ensures |ps| <= |items|
    ensures forall d :: d in ps <==> Some(d) in items
  {
    if items == [] then []
    else
      var rest := Present(items[1..]);
      assert forall o :: o in items <==> o == items[0] || o in items[1..];
      match items[0]
      case None => rest
      case Some(d) => [d] + rest
  }

  /** `es` lists the non-null data items `ps`, in array order: each with its
      accessor's id, the name found for that id (`"unknown"` when none was),
      its accessor's serializer and its serialised initial value. */
  predicate ListsItems(es: seq<SynchedEntry>, ps: seq<DataItem>, names: map<int, Named>,
                       serializerNames: map<int, string>)
  {
    && |es| == |ps|
    && forall i :: 0 <= i < |es| ==>
         && es[i].index == ps[i].accessor.id
         && es[i].defaultValue == Some(SerializeDefaultValue(ps[i].initialValue))
         && (ps[i].accessor.id in names ==> es[i].name == names[ps[i].accessor.id].1)
         && (ps[i].accessor.id !in names ==> es[i].name == "unknown")
         && es[i].serializer == SerializerName(serializerNames, ps[i].accessor.serializerId)
  }

  /** The live-entity branch of `extractSynchedData`: one entry per non-null
      data item, in array order. */
  function InstantiatedEntries(items: seq<Option<DataItem>>, names: map<int, Named>,
                               serializerNames: map<int, string>): (es: seq<SynchedEntry>)
    ensures ListsItems(es, Present(items), names, serializerNames)
  {
    var ps := Present(items);
    seq(|ps|, i requires 0 <= i < |ps| => ItemEntry(ps[i], names, serializerNames))
  }

  /** A live entity: the hierarchy of its runtime class and its data items. */
  datatype Instance = Instance(hierarchy: seq<ClassInfo>, itemsById: seq<Option<DataItem>>)

  /** `extractSynchedData`: the live entity's items when the type can be
      instantiated, otherwise the accessors found on its base class. */
  function ExtractSynchedData(instance: Option<Instance>, baseClass: seq<ClassInfo>,
                              serializerNames: map<int, string>): (es: seq<SynchedEntry>)
    ensures instance.None? ==> ListsTable(es, GetAccessorNames(baseClass), serializerNames)
    ensures instance.None? ==>
              forall id :: id in DeclaredIds(Walked(baseClass)) <==> exists i :: 0 <= i < |es| && es[i].index == id
    ensures instance.Some? ==>
              ListsItems(es, Present(instance.value.itemsById), GetAccessorNames(instance.value.hierarchy),
                         serializerNames)
    ensures instance.Some? ==>
              forall i :: 0 <= i < |es| && es[i].index !in DeclaredIds(Walked(instance.value.hierarchy)) ==>
                es[i].name == "unknown"
  {
    match instance
    case Some(entity) =>
      var names := GetAccessorNames(entity.hierarchy);
      assert names.Keys == DeclaredIds(Walked(entity.hierarchy));
      InstantiatedEntries(entity.itemsById, names, serializerNames)
    case None =>
      var names := GetAccessorNames(baseClass);
      assert names.Keys == DeclaredIds(Walked(baseClass));
      FallbackEntries(names, serializerNames)
  }
}
