/** Schema construction: what MetaChoice and MetaSequence check and build when
    a Choice or Sequence type is declared, and what Component computes from
    its arguments. */
module Builders {
  import opened Wrappers
  import opened Errors
  import opened Integers
  import opened Tags
  import opened Schemas
  import opened Codec
  import opened RoundTrip

  // MetaChoice.

  predicate DistinctAltNames(alts: seq<Alternative>) {
    forall j, k :: 0 <= j < k < |alts| ==> alts[j].name != alts[k].name
  }

  predicate AllTagged(alts: seq<Alternative>) {
    forall k :: 0 <= k < |alts| ==> alts[k].schema.tags != []
  }

  predicate DistinctOuterTags(alts: seq<Alternative>)
    requires AllTagged(alts)
  {
    forall j, k :: 0 <= j < k < |alts| ==> OuterTag(alts[j].schema) != OuterTag(alts[k].schema)
  }

  /** The alternatives MetaChoice accepts: distinct names, each tagged, and no
      two sharing an outer tag. */
  predicate ChoiceAccepted(alts: seq<Alternative>) {
    DistinctAltNames(alts) && AllTagged(alts) && DistinctOuterTags(alts)
  }

  /** The tag map holding the outer tag of each of alts[..n]. */
  predicate IsTagMap(alts: seq<Alternative>, n: nat, m: map<Tag, string>)
    requires n <= |alts| && AllTagged(alts[..n])
  {
    && m.Keys == (set k | 0 <= k < n :: OuterTag(alts[k].schema))
    && forall k :: 0 <= k < n ==> m[OuterTag(alts[k].schema)] == alts[k].name
  }

  /** MetaChoice.__new__: walk the alternatives, refusing a repeated name, an
      untagged alternative or a repeated outer tag, and map each outer tag to
      its alternative's name. */
  method BuildTagMap(alts: seq<Alternative>) returns (r: Result<map<Tag, string>, Error>)
    ensures r.Success? <==> ChoiceAccepted(alts)
    ensures r.Failure? ==> r.error == SchemaError
    ensures r.Success? ==> IsTagMap(alts, |alts|, r.value)
  {
    var tagMap: map<Tag, string> := map[];
    var keysSeen: set<string> := {};
    for i := 0 to |alts|
      invariant ChoiceAccepted(alts[..i])
      invariant keysSeen == set k | 0 <= k < i :: alts[k].name
      invariant IsTagMap(alts, i, tagMap)
    {
      var a := alts[i];
      if a.name in keysSeen {
        var k :| 0 <= k < i && alts[k].name == a.name;
        assert !DistinctAltNames(alts);
        return Failure(SchemaError);
      }
      keysSeen := keysSeen + {a.name};
      if a.schema.tags == [] {
        assert !AllTagged(alts);
        return Failure(SchemaError);
      }
      var t := OuterTag(a.schema);
      if t in tagMap {
        var k :| 0 <= k < i && OuterTag(alts[k].schema) == t;
        assert !(AllTagged(alts) && DistinctOuterTags(alts));
        return Failure(SchemaError);
      }
      tagMap := tagMap[t := a.name];
      assert alts[..i + 1] == alts[..i] + [a];
    }
    assert alts[..|alts|] == alts;
    return Success(tagMap);
  }

  /** The tag map and the decoder's lookup by outer tag agree: a tag is in the
      map exactly when some alternative carries it, and maps to that
      alternative's name. */
  lemma TagMapLookup(alts: seq<Alternative>, m: map<Tag, string>, t: Tag)
    requires ChoiceAccepted(alts) && IsTagMap(alts, |alts|, m)
    ensures t in m <==> FindAltByTag(alts, t).Some?
    ensures t in m ==> m[t] == alts[FindAltByTag(alts, t).value].name
  {
    if t in m {
      var k :| 0 <= k < |alts| && OuterTag(alts[k].schema) == t;
      assert HasOuterTag(alts[k].schema, t);
    }
  }

  /** An accepted, non-empty set of well-formed alternatives makes a Choice the
      decoder reads back unambiguously, tagged or not. */
  lemma AcceptedChoiceWellFormed(tags: seq<Tag>, alts: seq<Alternative>)
    requires ChoiceAccepted(alts) && alts != []
    requires forall k :: 0 <= k < |alts| ==> WellFormed(alts[k].schema)
    ensures WellFormed(Schema(tags, ChoiceK(alts)))
  {
    forall j, k | 0 <= j < k < |alts| && alts[j].schema.tags != []
      ensures !HasOuterTag(alts[k].schema, OuterTag(alts[j].schema))
    {
    }
  }

  // Component and MetaSequence.

  /** Component.__init__: a default makes the component optional, and its
      encoding is computed once, up front; a default that cannot be encoded
      makes the declaration fail. */
  function MakeComponent(name: string, schema: Schema, optional: bool,
                         default: Option<Value>, definedBy: Option<DefinedBy>)
    : (r: Result<Component, Error>)
    ensures default.None? ==> r.Success? && r.value.encodedDefault.None?
    ensures default.Some? ==> r.Success? == Encode(schema, default.value).Success?
    ensures r.Success? ==> r.value.optional == (optional || default.Some?)
    ensures r.Success? ==> r.value.name == name && r.value.schema == schema
                           && r.value.default == default && r.value.definedBy == definedBy
  {
    var encodedDefault :-
      if default.None? then Success(None)
      else
        var e :- Encode(schema, default.value);
        Success(Some(e));
    Success(Component(name, schema, optional || default.Some?, default, encodedDefault, definedBy))
  }

  /** A built component's encoded default is the encoding of its default, as
      Sequence encoding relies on when it leaves a component out. */
  lemma MakeComponentConsistent(name: string, schema: Schema, optional: bool,
                                default: Option<Value>, definedBy: Option<DefinedBy>)
    requires default.Some? ==> Conforms(schema, default.value)
    requires MakeComponent(name, schema, optional, default, definedBy).Success?
    ensures DefaultConsistent(MakeComponent(name, schema, optional, default, definedBy).value)
  {
  }

  predicate DistinctNames(comps: seq<Component>) {
    forall j, k :: 0 <= j < k < |comps| ==> comps[j].name != comps[k].name
  }

  /** The key map holding each of comps[..n] under its name. */
  predicate IsKeyMap(comps: seq<Component>, n: nat, m: map<string, Component>)
    requires n <= |comps|
  {
    && m.Keys == (set k | 0 <= k < n :: comps[k].name)
    && forall k :: 0 <= k < n ==> m[comps[k].name] == comps[k]
  }

  /** MetaSequence.__new__: map each component's name to the component,
      refusing a repeated name. */
  method BuildKeyMap(comps: seq<Component>) returns (r: Result<map<string, Component>, Error>)
    ensures r.Success? <==> DistinctNames(comps)
    ensures r.Failure? ==> r.error == SchemaError
    ensures r.Success? ==> IsKeyMap(comps, |comps|, r.value)
  {
    var keyMap: map<string, Component> := map[];
    for i := 0 to |comps|
      invariant DistinctNames(comps[..i])
      invariant IsKeyMap(comps, i, keyMap)
    {
      var c := comps[i];
      if c.name in keyMap {
        var k :| 0 <= k < i && comps[k].name == c.name;
        assert !DistinctNames(comps);
        return Failure(SchemaError);
      }
      keyMap := keyMap[c.name := c];
      assert comps[..i + 1] == comps[..i] + [c];
    }
    assert comps[..|comps|] == comps;
    return Success(keyMap);
  }

  /** With distinct names, the key map and the search by name used by the
      defined-by pass find the same component. */
  lemma KeyMapLookup(comps: seq<Component>, m: map<string, Component>, name: string)
    requires DistinctNames(comps) && IsKeyMap(comps, |comps|, m)
    ensures name in m <==> IndexOfName(comps, name).Some?
    ensures name in m ==> m[name] == comps[IndexOfName(comps, name).value]
  {
    if name in m {
      var k :| 0 <= k < |comps| && comps[k].name == name;
      assert IndexOfName(comps, name).Some?;
    }
  }
}
