/** The mutable instances: a Choice holds a dict with at most one entry, a
    SequenceOf/SetOf a list, and an Any its raw bytes and, once decoded, the
    decoded value. Values inside them are the typed values of Schemas; the
    source's conversion of plain Python values into typed ones is not part of
    this model. A ValueError, KeyError or IndexError is reported as
    InvalidArgument, a TypeError or AttributeError as SchemaError. */
module Containers {
  import opened Wrappers
  import opened Errors
  import opened Integers
  import opened Schemas
  import opened Codec

  // Choice.

  function AltNames(alts: seq<Alternative>): set<string> {
    set k | 0 <= k < |alts| :: alts[k].name
  }

  /** Choice._convert_value: an empty dict, or one entry whose value is None
      (nothing set), or one entry naming an alternative. */
  function ConvertChoice(alts: seq<Alternative>, m: map<string, Option<Value>>)
    : (r: Result<map<string, Value>, Error>)
    ensures r.Success? ==> |r.value| <= 1 && r.value.Keys <= AltNames(alts)
    ensures r.Success? <==>
              |m| == 0 || (|m| == 1 && forall k | k in m :: m[k].None? || k in AltNames(alts))
    ensures r.Success? ==> forall k | k in m && m[k].Some? :: k in r.value && r.value[k] == m[k].value
    ensures r.Success? ==> r.value.Keys == set k | k in m && m[k].Some?
    ensures r.Failure? ==> r.error == InvalidArgument
  {
    if |m| == 0 then Success(map[])
    else if |m| != 1 then Failure(InvalidArgument)
    else
      var key := OnlyKey(m);
      if m[key].None? then Success(map[])
      else if key !in AltNames(alts) then Failure(InvalidArgument)
      else Success(map[key := m[key].value])
  }

  /** The one key of a one-entry dict. */
  function OnlyKey<V>(m: map<string, V>): (k: string)
    requires |m| == 1
    ensures k in m && m.Keys == {k}
  {
    var k :| k in m;
    assert m.Keys == {k} by {
      var others := m.Keys - {k};
      assert |others| == 0;
      assert forall j | j in m.Keys :: j == k || j in others;
    }
    k
  }

  /** A Choice instance. */
  class ChoiceValue {
    const alts: seq<Alternative>
    var chosen: map<string, Value>

    /** At most one alternative is set, and only an alternative of the type. */
    ghost predicate Valid()
      reads this
    {
      |chosen| <= 1 && chosen.Keys <= AltNames(alts)
    }

    /** Choice(value=...): the dict after Choice._convert_value. */
    constructor(alts: seq<Alternative>, init: map<string, Value>)
      requires |init| <= 1 && init.Keys <= AltNames(alts)
      ensures Valid() && this.alts == alts && chosen == init
    {
      this.alts := alts;
      chosen := init;
    }

    /** Choice.__getitem__: the value set for `key`, nothing for an
        alternative that is not set, a KeyError for a name that is not an
        alternative. */
    function GetItem(key: string): (r: Result<Option<Value>, Error>)
      reads this
      ensures r.Success? <==> key in chosen || key in AltNames(alts)
      ensures key in chosen ==> r == Success(Some(chosen[key]))
      ensures key !in chosen && key in AltNames(alts) ==> r == Success(None)
      ensures r.Failure? ==> r.error == InvalidArgument
    {
      if key in chosen then Success(Some(chosen[key]))
      else if key in AltNames(alts) then Success(None)
      else Failure(InvalidArgument)
    }

    /** Choice.__len__. */
    function Length(): (n: nat)
      reads this
      requires Valid()
      ensures n <= 1 && (n == 0 <==> chosen == map[])
    {
      |chosen|
    }

    /** Choice.__setitem__: setting an alternative replaces whatever was set;
        setting None clears the Choice. */
    method SetItem(key: string, v: Option<Value>) returns (r: Result<(), Error>)
      requires Valid()
      modifies this
      ensures Valid()
      ensures key !in AltNames(alts) ==> r == Failure(InvalidArgument) && chosen == old(chosen)
      ensures key in AltNames(alts) ==> r.Success? && chosen == (if v.None? then map[] else map[key := v.value])
      ensures r.Success? ==> GetItem(key) == Success(v)
    {
      if key !in AltNames(alts) {
        return Failure(InvalidArgument);
      }
      if v.None? {
        chosen := map[];
      } else {
        chosen := map[key := v.value];
      }
      return Success(());
    }

    /** Choice.__delitem__: deleting the set alternative clears the Choice;
        deleting another alternative does nothing; deleting a name that is not
        an alternative is a KeyError. */
    method DelItem(key: string) returns (r: Result<(), Error>)
      requires Valid()
      modifies this
      ensures Valid()
      ensures r.Success? <==> key in old(chosen) || key in AltNames(alts)
      ensures chosen == (if key in old(chosen) then map[] else old(chosen))
      ensures r.Success? ==> GetItem(key) == Success(None)
      ensures r.Failure? ==> r.error == InvalidArgument
    {
      if key in chosen {
        chosen := map[];
      } else if key !in AltNames(alts) {
        return Failure(InvalidArgument);
      }
      return Success(());
    }
  }

  // SequenceOf and SetOf.

  /** Where Python's list.insert puts an element for a given index. */
  function InsertPosition(index: int, n: nat): (p: nat)
    ensures p <= n
    ensures 0 <= index <= n ==> p == index
    ensures -(n as int) <= index < 0 ==> p == n + index
  {
    if index < 0 then (if index + n < 0 then 0 else index + n)
    else if index > n then n
    else index
  }

  /** Python list indexing: a negative index counts from the end, and an index
      outside the list is an IndexError. */
  function ListIndex(index: int, n: nat): (r: Result<nat, Error>)
    ensures r.Success? <==> -(n as int) <= index < n
    ensures r.Success? ==> r.value < n && (index >= 0 ==> r.value == index)
                           && (index < 0 ==> r.value == n + index)
    ensures r.Failure? ==> r.error == InvalidArgument
  {
    if index < -(n as int) || index >= n then Failure(InvalidArgument)
    else if index < 0 then Success(n + index)
    else Success(index)
  }

  /** list.insert(index, v). */
  function ListInsert(s: seq<Value>, index: int, v: Value): (r: seq<Value>)
    ensures |r| == |s| + 1
  {
    var p := InsertPosition(index, |s|);
    s[..p] + [v] + s[p..]
  }

  /** del list[index]. */
  function ListDelete(s: seq<Value>, index: int): (r: Result<seq<Value>, Error>)
    ensures r.Success? <==> -|s| <= index < |s|
    ensures r.Success? ==> |r.value| == |s| - 1
  {
    var i :- ListIndex(index, |s|);
    Success(s[..i] + s[i + 1..])
  }

  /** Inserting keeps every element and adds the new one where list.insert
      says; deleting at that place gives the list back. */
  lemma InsertThenDelete(s: seq<Value>, index: int, v: Value)
    ensures multiset(ListInsert(s, index, v)) == multiset(s) + multiset{v}
    ensures ListInsert(s, index, v)[InsertPosition(index, |s|)] == v
    ensures ListDelete(ListInsert(s, index, v), InsertPosition(index, |s|)) == Success(s)
  {
    var p := InsertPosition(index, |s|);
    var t := ListInsert(s, index, v);
    assert s == s[..p] + s[p..];
    assert t[..p] == s[..p] && t[p + 1..] == s[p..];
  }

  /** Deleting removes exactly the element at the index. */
  lemma DeleteRemovesOne(s: seq<Value>, index: int)
    requires -|s| <= index < |s|
    ensures var i := ListIndex(index, |s|).value;
            multiset(ListDelete(s, index).value) + multiset{s[i]} == multiset(s)
  {
    var i := ListIndex(index, |s|).value;
    assert s == s[..i] + [s[i]] + s[i + 1..];
  }

  /** A SequenceOf or SetOf instance: its list of element values. */
  class RepeatedValue {
    var elems: seq<Value>

    constructor(init: seq<Value>)
      ensures elems == init
    {
      elems := init;
    }

    /** Repeated.__getitem__. */
    function GetItem(index: int): (r: Result<Value, Error>)
      reads this
      ensures r.Success? <==> -|elems| <= index < |elems|
      ensures 0 <= index < |elems| ==> r == Success(elems[index])
      ensures -|elems| <= index < 0 ==> r == Success(elems[|elems| + index])
      ensures r.Failure? ==> r.error == InvalidArgument
    {
      var i :- ListIndex(index, |elems|);
      Success(elems[i])
    }

    /** Repeated.__len__: the indices that __getitem__ accepts run from
        -len to len - 1. */
    function Length(): (n: nat)
      reads this
      ensures forall index :: GetItem(index).Success? <==> -(n as int) <= index < n
    {
      |elems|
    }

    /** Repeated.__setitem__ for a single index. */
    method SetItem(index: int, v: Value) returns (r: Result<(), Error>)
      modifies this
      ensures r.Success? <==> -|old(elems)| <= index < |old(elems)|
      ensures r.Success? ==> elems == old(elems)[ListIndex(index, |old(elems)|).value := v]
      ensures r.Failure? ==> elems == old(elems)
      ensures r.Success? ==> GetItem(index) == Success(v)
    {
      var i := ListIndex(index, |elems|);
      if i.Failure? {
        return Failure(i.error);
      }
      elems := elems[i.value := v];
      return Success(());
    }

    /** Repeated.__delitem__ for a single index. */
    method DelItem(index: int) returns (r: Result<(), Error>)
      modifies this
      ensures r.Success? <==> ListDelete(old(elems), index).Success?
      ensures r.Success? ==> elems == ListDelete(old(elems), index).value
      ensures r.Failure? ==> elems == old(elems)
    {
      var i := ListIndex(index, |elems|);
      if i.Failure? {
        return Failure(i.error);
      }
      elems := elems[..i.value] + elems[i.value + 1..];
      return Success(());
    }

    /** Repeated.insert. */
    method Insert(index: int, v: Value)
      modifies this
      ensures elems == ListInsert(old(elems), index, v)
    {
      var p := InsertPosition(index, |elems|);
      elems := elems[..p] + [v] + elems[p..];
    }
  }

  // Sequence.

  /** Sequence._convert_value: every key must name a component; each
      component then holds the given value, or its default when the value is
      missing or None. A Sequence without components has no key_map, so any
      key at all is an AttributeError there, and a ValueError otherwise. */
  function ConvertSequence(comps: seq<Component>, m: map<string, Option<Value>>)
    : (r: Result<seq<Option<Value>>, Error>)
    ensures r.Success? <==> forall k | k in m :: exists i :: 0 <= i < |comps| && comps[i].name == k
    ensures r.Failure? ==> r.error == (if comps == [] then SchemaError else InvalidArgument)
    ensures r.Success? ==> |r.value| == |comps|
  {
    if exists k | k in m :: IndexOfName(comps, k).None? then
      assert forall k | k in m && IndexOfName(comps, k).Some? :: comps[IndexOfName(comps, k).value].name == k;
      if comps == [] then Failure(SchemaError) else Failure(InvalidArgument)
    else
      assert forall k | k in m :: IndexOfName(comps, k).Some?;
      Success(seq(|comps|, i requires 0 <= i < |comps| =>
        var name := comps[i].name;
        if name in m && m[name].Some? then m[name] else comps[i].default))
  }

  /** Sequence.__getitem__: the value held by the component called `key`. */
  function GetField(comps: seq<Component>, fields: seq<Option<Value>>, key: string)
    : (r: Result<Option<Value>, Error>)
    requires |fields| == |comps|
    ensures r.Success? <==> exists i :: 0 <= i < |comps| && comps[i].name == key
    ensures forall i :: 0 <= i < |comps| && comps[i].name == key && (forall j :: 0 <= j < i ==> comps[j].name != key) ==>
              r == Success(fields[i])
    ensures r.Failure? ==> r.error == InvalidArgument
  {
    match IndexOfName(comps, key)
    case None => Failure(InvalidArgument)
    case Some(i) => Success(fields[i])
  }

  /** What a Sequence built from a dict holds: the given value under each given
      name, and a value for every defaulted component, as encoding requires. */
  lemma ConvertThenGet(comps: seq<Component>, m: map<string, Option<Value>>, key: string)
    requires forall j, k :: 0 <= j < k < |comps| ==> comps[j].name != comps[k].name
    requires ConvertSequence(comps, m).Success?
    ensures key in m && m[key].Some? ==> GetField(comps, ConvertSequence(comps, m).value, key) == Success(m[key])
    ensures key !in m && IndexOfName(comps, key).Some? ==>
              GetField(comps, ConvertSequence(comps, m).value, key)
              == Success(comps[IndexOfName(comps, key).value].default)
    ensures forall i :: 0 <= i < |comps| && comps[i].default.Some? ==> ConvertSequence(comps, m).value[i].Some?
  {
    if key in m {
      assert exists i :: 0 <= i < |comps| && comps[i].name == key;
    }
  }

  // Any.

  /** An Any instance: the undecoded TLV, and the decoded value once there is
      one. */
  class AnyValue {
    var raw: Bytes
    var decoded: Option<Value>

    /** Any(value=<bytes>): undecoded. */
    constructor FromRaw(raw: Bytes)
      ensures this.raw == raw && decoded == None
    {
      this.raw := raw;
      decoded := None;
    }

    /** Any(value=<typed value>): the raw bytes are the value's encoding, and
        the value is the decoded form. An Any cannot be built from an Any: a
        TypeError. */
    static method FromValue(s: Schema, v: Value) returns (r: Result<AnyValue, Error>)
      ensures s.kind.AnyK? ==> r == Failure(SchemaError)
      ensures !s.kind.AnyK? ==> (r.Success? <==> Encode(s, v).Success?)
      ensures r.Success? ==> fresh(r.value) && r.value.raw == Encode(s, v).value
                             && r.value.decoded == Some(v)
    {
      if s.kind.AnyK? {
        return Failure(SchemaError);
      }
      var e := Encode(s, v);
      if e.Failure? {
        return Failure(e.error);
      }
      var a := new AnyValue.FromRaw(e.value);
      a.decoded := Some(v);
      return Success(a);
    }

    /** Any.decoded. */
    function IsDecoded(): (b: bool)
      reads this
      ensures b <==> decoded.Some?
    {
      decoded.Some?
    }

    /** Any.decode_inner: decode the raw bytes against a type and keep the
        result, replacing any earlier decoded value; on failure nothing
        changes. */
    method DecodeInner(s: Schema, strict: bool) returns (r: Result<(), Error>)
      modifies this
      ensures raw == old(raw)
      ensures r.Success? <==> Decode(s, raw, strict).Success?
      ensures r.Success? ==> decoded == Some(Decode(s, raw, strict).value)
      ensures r.Failure? ==> r.error == Decode(s, raw, strict).error && decoded == old(decoded)
    {
      var d := Decode(s, raw, strict);
      if d.Failure? {
        return Failure(d.error);
      }
      decoded := Some(d.value);
      return Success(());
    }
  }
}
