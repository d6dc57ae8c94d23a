/**
 * The schema check of the topic records: `_itemConformsToSchema` walks the
 * schema's keys in order, and `_checkSchema` applies it to every record
 * under the root's `topics` key.
 */
module Schema {
  import opened Wrappers
  import opened Json

  /** One schema value: a `typeof` name, or a nested schema object. */
  datatype Entry = TypeName(name: string) | Nested(sub: Shape)

  /** A schema object: its keys in `for...in` order, each with its entry. */
  datatype Shape = Shape(entries: seq<(string, Entry)>)

  /** What one call of `_itemConformsToSchema` does: answer, or throw. */
  datatype Verdict = Conforms | Violates | Throws

  /** Errors `_checkSchema` raises. */
  datatype SchemaError =
    | MissingTopics              // "expected root array named topics"
    | NonConforming(index: nat)  // "item: <index> does not conform to schema"
    | TypeError                  // a JavaScript TypeError on malformed input

  /**
   * `_itemSchema`. The `sentiment` entry is the string 'object', not a
   * nested schema, so the recursive branch never runs for it.
   */
  const ItemSchema: Shape := Shape([
    ("label", TypeName("string")),
    ("sentimentScore", TypeName("number")),
    ("sentiment", TypeName("object")),
    ("volume", TypeName("number")),
    ("id", TypeName("string"))
  ])

  /**
   * `_itemConformsToSchema(item, schema)`, continued from the schema's
   * `i`-th key. A nested entry returns the recursive result at once, so the
   * keys after it are never looked at. The first `item.hasOwnProperty(prop)`
   * throws on a value where it cannot be called (`HasOwnCallable`).
   */
  function ConformsFrom(item: Value, s: Shape, i: nat): (r: Verdict)
    requires i <= |s.entries|
    ensures r == Throws ==> i < |s.entries|
    ensures i < |s.entries| && !HasOwnCallable(item) ==> r == Throws
    decreases s, |s.entries| - i
  {
    if i == |s.entries| then Conforms
    else if !HasOwnCallable(item) then Throws
    else
      var prop := s.entries[i].0;
      if !HasOwn(item, prop) then Violates
      else
        match s.entries[i].1
        case Nested(sub) =>
          assert s.entries[i] in s.entries;
          ConformsFrom(Get(item, prop), sub, 0)
        case TypeName(name) =>
          if TypeOf(Get(item, prop)) != name then Violates
          else ConformsFrom(item, s, i + 1)
  }

  /** `_itemConformsToSchema(item, schema)`: the walk from the first key. */
  function ItemConforms(item: Value, s: Shape): (r: Verdict)
    ensures s.entries == [] ==> r == Conforms
    ensures !HasOwnCallable(item) ==> (r == Throws <==> s.entries != [])
  {
    ConformsFrom(item, s, 0)
  }

  /** Index of the first nested entry, or the number of entries if none. */
  function FirstNested(s: Shape, i: nat): (k: nat)
    requires i <= |s.entries|
    ensures i <= k <= |s.entries|
    ensures k < |s.entries| ==> s.entries[k].1.Nested?
    ensures forall j :: i <= j < k ==> s.entries[j].1.TypeName?
    decreases |s.entries| - i
  {
    if i == |s.entries| || s.entries[i].1.Nested? then i else FirstNested(s, i + 1)
  }

  predicate Flat(s: Shape)
  {
    forall j :: 0 <= j < |s.entries| ==> s.entries[j].1.TypeName?
  }

  /**
   * The check the schema describes when read as "every key present with the
   * right type, nested schemas checked in full": the reference against which
   * the shallow walk is compared. Checking the keys calls `hasOwnProperty`,
   * so a non-empty schema needs a value on which it can be called.
   */
  predicate FullyConforms(item: Value, s: Shape)
    decreases s
  {
    && (|s.entries| > 0 ==> HasOwnCallable(item))
    && forall j :: 0 <= j < |s.entries| ==>
      HasOwn(item, s.entries[j].0) &&
      match s.entries[j].1
      case TypeName(name) => TypeOf(Get(item, s.entries[j].0)) == name
      case Nested(sub) =>
        assert s.entries[j] in s.entries;
        FullyConforms(Get(item, s.entries[j].0), sub)
  }

  /** The records `ItemSchema` accepts, field by field. */
  predicate IsTopicRecord(v: Value)
  {
    && v.Object? && "hasOwnProperty" !in v.fields
    && "label" in v.fields && v.fields["label"].Str?
    && "sentimentScore" in v.fields && v.fields["sentimentScore"].Number?
    && "sentiment" in v.fields && TypeOf(v.fields["sentiment"]) == "object"
    && "volume" in v.fields && v.fields["volume"].Number?
    && "id" in v.fields && v.fields["id"].Str?
  }

  /**
   * A record whose keys, up to and including the first nested entry, are
   * not all present, or whose keys before it do not all have their type, is
   * rejected.
   */
  lemma {:induction false} EarlyKeyRejected(item: Value, s: Shape, j: nat)
    requires HasOwnCallable(item)
    requires j < |s.entries| && j <= FirstNested(s, 0)
    requires !HasOwn(item, s.entries[j].0) ||
             (j < FirstNested(s, 0) && TypeOf(Get(item, s.entries[j].0)) != s.entries[j].1.name)
    ensures ItemConforms(item, s) == Violates
  {
    PrefixRejected(item, s, j, 0);
  }

  lemma {:induction false} PrefixRejected(item: Value, s: Shape, j: nat, i: nat)
    requires HasOwnCallable(item)
    requires i <= j < |s.entries| && j <= FirstNested(s, i)
    requires !HasOwn(item, s.entries[j].0) ||
             (j < FirstNested(s, i) && TypeOf(Get(item, s.entries[j].0)) != s.entries[j].1.name)
    ensures ConformsFrom(item, s, i) == Violates
    decreases j - i
  {
    if i < j && HasOwn(item, s.entries[i].0) {
      if TypeOf(Get(item, s.entries[i].0)) == s.entries[i].1.name {
        PrefixRejected(item, s, j, i + 1);
      }
    }
  }

  /** A record with every key present and correctly typed, all the way down, passes. */
  lemma {:induction false} FullyConformingAccepted(item: Value, s: Shape)
    requires FullyConforms(item, s)
    ensures ItemConforms(item, s) == Conforms
    decreases s, 1
  {
    FullyConformingAcceptedFrom(item, s, 0);
  }

  lemma {:induction false} FullyConformingAcceptedFrom(item: Value, s: Shape, i: nat)
    requires i <= |s.entries| && FullyConforms(item, s)
    ensures ConformsFrom(item, s, i) == Conforms
    decreases s, 0, |s.entries| - i
  {
    if i < |s.entries| {
      assert HasOwn(item, s.entries[i].0);
      match s.entries[i].1
      case Nested(sub) =>
        assert s.entries[i] in s.entries;
        FullyConformingAccepted(Get(item, s.entries[i].0), sub);
      case TypeName(_) =>
        FullyConformingAcceptedFrom(item, s, i + 1);
    }
  }

  /** For a schema without nested entries the walk is exactly the full check. */
  lemma {:induction false} FlatSchemaExact(item: Value, s: Shape)
    requires Flat(s)
    ensures ItemConforms(item, s) == Conforms <==> FullyConforms(item, s)
  {
    FlatSchemaExactFrom(item, s, 0);
  }

  lemma {:induction false} FlatSchemaExactFrom(item: Value, s: Shape, i: nat)
    requires Flat(s) && i <= |s.entries|
    ensures ConformsFrom(item, s, i) == Conforms <==>
      && (i < |s.entries| ==> HasOwnCallable(item))
      && forall j :: i <= j < |s.entries| ==>
        HasOwn(item, s.entries[j].0) && TypeOf(Get(item, s.entries[j].0)) == s.entries[j].1.name
    decreases |s.entries| - i
  {
    if i < |s.entries| {
      FlatSchemaExactFrom(item, s, i + 1);
      assert s.entries[i].1.TypeName?;
      if !HasOwnCallable(item) {
        assert ConformsFrom(item, s, i) == Throws;
      } else if HasOwn(item, s.entries[i].0) && TypeOf(Get(item, s.entries[i].0)) == s.entries[i].1.name {
        assert ConformsFrom(item, s, i) == ConformsFrom(item, s, i + 1);
      } else {
        assert ConformsFrom(item, s, i) != Conforms;
      }
    }
  }

  /**
   * On reaching a nested entry the walk returns the nested verdict
   * immediately: whatever follows that entry is never checked.
   */
  lemma {:induction false} NestedEntryDecides(item: Value, s: Shape)
    requires HasOwnCallable(item)
    requires FirstNested(s, 0) < |s.entries|
    requires forall j :: 0 <= j < FirstNested(s, 0) ==>
      HasOwn(item, s.entries[j].0) && TypeOf(Get(item, s.entries[j].0)) == s.entries[j].1.name
    requires HasOwn(item, s.entries[FirstNested(s, 0)].0)
    ensures ItemConforms(item, s) ==
      ItemConforms(Get(item, s.entries[FirstNested(s, 0)].0), s.entries[FirstNested(s, 0)].1.sub)
  {
    NestedEntryDecidesFrom(item, s, 0);
  }

  lemma {:induction false} NestedEntryDecidesFrom(item: Value, s: Shape, i: nat)
    requires HasOwnCallable(item)
    requires i <= |s.entries| && FirstNested(s, i) < |s.entries|
    requires forall j :: i <= j < FirstNested(s, i) ==>
      HasOwn(item, s.entries[j].0) && TypeOf(Get(item, s.entries[j].0)) == s.entries[j].1.name
    requires HasOwn(item, s.entries[FirstNested(s, i)].0)
    ensures ConformsFrom(item, s, i) ==
      ConformsFrom(Get(item, s.entries[FirstNested(s, i)].0), s.entries[FirstNested(s, i)].1.sub, 0)
    decreases |s.entries| - i
  {
    if s.entries[i].1.TypeName? {
      NestedEntryDecidesFrom(item, s, i + 1);
    }
  }

  /** The walk is shallower than the full check: a later key can be missing. */
  lemma ShallowAfterNested()
    ensures var s := Shape([("a", Nested(Shape([]))), ("b", TypeName("string"))]);
            var item := Object(map["a" := Object(map[])]);
            ItemConforms(item, s) == Conforms && !FullyConforms(item, s)
  {
    var s := Shape([("a", Nested(Shape([]))), ("b", TypeName("string"))]);
    var item := Object(map["a" := Object(map[])]);
    assert !HasOwn(item, s.entries[1].0);
  }

  /**
   * With the shipped schema a record passes exactly when it is an object
   * with the five typed keys and no own `hasOwnProperty`; null, undefined
   * and a record with its own `hasOwnProperty` key make the walk throw.
   */
  lemma ItemSchemaVerdict(v: Value)
    ensures ItemConforms(v, ItemSchema) == Conforms <==> IsTopicRecord(v)
    ensures ItemConforms(v, ItemSchema) == Throws <==> !HasOwnCallable(v)
  {
    FlatSchemaExact(v, ItemSchema);
    var e := ItemSchema.entries;
    if FullyConforms(v, ItemSchema) {
      assert HasOwn(v, e[0].0) && HasOwn(v, e[1].0) && HasOwn(v, e[2].0);
      assert HasOwn(v, e[3].0) && HasOwn(v, e[4].0);
      assert TypeOf(Get(v, e[0].0)) == "string" && TypeOf(Get(v, e[1].0)) == "number";
      assert TypeOf(Get(v, e[3].0)) == "number" && TypeOf(Get(v, e[4].0)) == "string";
    }
    if IsTopicRecord(v) {
      forall j | 0 <= j < |e|
        ensures HasOwn(v, e[j].0) && TypeOf(Get(v, e[j].0)) == e[j].1.name
      {
      }
    }
  }

  /** Index of the first record that does not pass, or the number of records. */
  function FirstBad(items: seq<Value>, s: Shape): (k: nat)
    ensures k <= |items|
    ensures forall j :: 0 <= j < k ==> ItemConforms(items[j], s) == Conforms
    ensures k < |items| ==> ItemConforms(items[k], s) != Conforms
  {
    if items == [] then 0
    else if ItemConforms(items[0], s) != Conforms then 0
    else 1 + FirstBad(items[1..], s)
  }

  /** The first record that does not pass, once every earlier one does. */
  lemma FirstBadAt(items: seq<Value>, s: Shape, i: nat)
    requires i < |items| && ItemConforms(items[i], s) != Conforms
    requires forall j :: 0 <= j < i ==> ItemConforms(items[j], s) == Conforms
    ensures FirstBad(items, s) == i
  {
  }

  /** The passing records, in their original order. */
  function Kept(items: seq<Value>, s: Shape): (r: seq<Value>)
    ensures |r| <= |items|
    ensures forall v :: v in r ==> v in items && ItemConforms(v, s) == Conforms
  {
    if items == [] then []
    else
      var last := items[|items| - 1];
      Kept(items[..|items| - 1], s) + (if ItemConforms(last, s) == Conforms then [last] else [])
  }

  /** Filtering distributes over concatenation, so it keeps the original order. */
  lemma {:induction false} KeptConcat(a: seq<Value>, b: seq<Value>, s: Shape)
    ensures Kept(a + b, s) == Kept(a, s) + Kept(b, s)
    decreases |b|
  {
    if b == [] {
      assert a + b == a;
    } else {
      var n := |b| - 1;
      assert (a + b)[..|a + b| - 1] == a + b[..n];
      assert (a + b)[|a + b| - 1] == b[n];
      KeptConcat(a, b[..n], s);
    }
  }

  /** When every record passes, nothing is dropped. */
  lemma {:induction false} KeptAll(items: seq<Value>, s: Shape)
    requires forall j :: 0 <= j < |items| ==> ItemConforms(items[j], s) == Conforms
    ensures Kept(items, s) == items
  {
    if items != [] {
      var n := |items| - 1;
      KeptAll(items[..n], s);
      assert items[..n] + [items[n]] == items;
    }
  }

  /**
   * `_checkSchema`: the topic list in effect afterwards. Without
   * `ignoreBadItems` the check stops at the first record that does not pass
   * and the list is left as it was; with it, the list becomes the passing
   * records. A TypeError (null data, a `topics` value that is not an array,
   * a record on which `hasOwnProperty` cannot be called) is raised either way.
   */
  function Checked(data: Value, schema: Shape, ignoreBadItems: bool): (r: Result<seq<Value>, SchemaError>)
    ensures r.Ok? ==> Get(data, "topics").Arr?
    ensures r.Ok? ==> forall v :: v in r.value ==> ItemConforms(v, schema) == Conforms
    ensures r.Ok? && !ignoreBadItems ==> r.value == Get(data, "topics").items
    ensures r.Ok? && ignoreBadItems ==> |r.value| <= |Get(data, "topics").items|
  {
    if data.Null? || data.Undefined? then Err(TypeError)
    else if !Truthy(Get(data, "topics")) then Err(MissingTopics)
    else if !Get(data, "topics").Arr? then Err(TypeError)
    else
      var items := Get(data, "topics").items;
      if !ignoreBadItems then
        var k := FirstBad(items, schema);
        if k == |items| then Ok(items)
        else if ItemConforms(items[k], schema) == Throws then Err(TypeError)
        else Err(NonConforming(k))
      else if exists j :: 0 <= j < |items| && ItemConforms(items[j], schema) == Throws then Err(TypeError)
      else Ok(Kept(items, schema))
  }

  /** The check loops over the records, as `_checkSchema` does. */
  method CheckSchema(data: Value, schema: Shape, ignoreBadItems: bool)
    returns (r: Result<seq<Value>, SchemaError>)
    ensures r == Checked(data, schema, ignoreBadItems)
  {
    if data.Null? || data.Undefined? {
      return Err(TypeError);  // null['topics']
    }
    var topics := Get(data, "topics");
    if !Truthy(topics) {
      return Err(MissingTopics);
    }
    if !topics.Arr? {
      return Err(TypeError);  // topics.map is not a function
    }
    var items := topics.items;
    var cleaned: seq<Value> := [];
    for i := 0 to |items|
      invariant ignoreBadItems ==> cleaned == Kept(items[..i], schema)
      invariant !ignoreBadItems ==> cleaned == []
      invariant forall j :: 0 <= j < i ==> ItemConforms(items[j], schema) != Throws
      invariant !ignoreBadItems ==> forall j :: 0 <= j < i ==> ItemConforms(items[j], schema) == Conforms
    {
      var verdict := ItemConforms(items[i], schema);
      if verdict == Throws {
        if !ignoreBadItems {
          FirstBadAt(items, schema, i);
        }
        return Err(TypeError);
      }
      if verdict == Violates {
        if !ignoreBadItems {
          FirstBadAt(items, schema, i);
          return Err(NonConforming(i));
        }
      } else if ignoreBadItems {
        cleaned := cleaned + [items[i]];
      }
      assert items[..i + 1][..i] == items[..i];
    }
    assert items[..|items|] == items;
    if ignoreBadItems {
      r := Ok(cleaned);
    } else {
      KeptAll(items, schema);
      r := Ok(items);
    }
  }

  /** When every record passes, `ignoreBadItems` makes no difference. */
  lemma CheckedModesAgree(data: Value, schema: Shape)
    requires Get(data, "topics").Arr?
    requires forall j :: 0 <= j < |Get(data, "topics").items| ==>
      ItemConforms(Get(data, "topics").items[j], schema) == Conforms
    ensures Checked(data, schema, true) == Checked(data, schema, false) == Ok(Get(data, "topics").items)
  {
    KeptAll(Get(data, "topics").items, schema);
  }
}
