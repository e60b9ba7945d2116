/**
 * Pass 1: the reverse "used in" index. For every type a member refers to,
 * the index lists the referring members, in the order the references were
 * met, duplicates kept.
 */
module References {
  import opened Ast
  import opened Names

  type Index = map<TypeKey, seq<MemberRef>>

  /** The members recorded under `k`, or none. */
  function Lookup(index: Index, k: TypeKey): seq<MemberRef> {
    if k in index then index[k] else []
  }

  /** `add_type_reference`: collapse `t`, then append `r` at the end of that
      key's list, creating the list when absent. Nothing else changes. */
  function AddTypeReference(index: Index, t: Type, r: MemberRef): (out: Index)
    ensures out.Keys == index.Keys + {Collapse(t)}
    ensures out[Collapse(t)] == Lookup(index, Collapse(t)) + [r]
    ensures forall k :: k in index && k != Collapse(t) ==> out[k] == index[k]
  {
    var k := Collapse(t);
    if k in index then index[k := index[k] + [r]] else index[k := [r]]
  }

  /** A loop `for t in types: add_type_reference(t, r)`. */
  function AddEach(index: Index, types: seq<Type>, r: MemberRef): Index
    decreases |types|
  {
    if |types| == 0 then index else AddEach(AddTypeReference(index, types[0], r), types[1..], r)
  }

  function ArgTypes(args: seq<TypedElement>): (ts: seq<Type>)
    ensures |ts| == |args|
    ensures forall i :: 0 <= i < |args| ==> ts[i] == args[i].typ
  {
    seq(|args|, i requires 0 <= i < |args| => args[i].typ)
  }

  /** The `prep_*` handlers, dispatched on the member's kind. */
  function Prepare(index: Index, ns: string, m: Member): Index {
    var r := RefOf(ns, m);
    match m
    case Attribute(_, t, _) => AddTypeReference(index, t, r)
    case Method(_, ins, outs, _) => AddEach(index, ArgTypes(ins + outs), r)
    case Broadcast(_, outs, _) => AddEach(index, ArgTypes(outs), r)
    case Struct(_, fields, _) => AddEach(index, ArgTypes(fields), r)
    case Enumeration(_, _, _) => index
    case Array(_, e, _) => AddTypeReference(index, Scalar(e), r)
    case Map(_, k, v, _) => AddTypeReference(AddTypeReference(index, Scalar(k), r), Scalar(v), r)
  }

  /** The types a member refers to, in the order pass 1 registers them:
      a method's in-arguments then out-arguments, an attribute's type, a
      broadcast's out-arguments, a struct's fields, an array's element
      type, a map's key then value type; an enumeration refers to nothing. */
  function Sources(m: Member): seq<Type> {
    match m
    case Attribute(_, t, _) => [t]
    case Method(_, ins, outs, _) => ArgTypes(ins) + ArgTypes(outs)
    case Broadcast(_, outs, _) => ArgTypes(outs)
    case Struct(_, fields, _) => ArgTypes(fields)
    case Enumeration(_, _, _) => []
    case Array(_, e, _) => [Scalar(e)]
    case Map(_, k, v, _) => [Scalar(k), Scalar(v)]
  }

  /** One recorded reference: the collapsed type and the member referring to it. */
  datatype Registration = Registration(key: TypeKey, referrer: MemberRef)

  function Pairs(types: seq<Type>, r: MemberRef): (regs: seq<Registration>)
    ensures |regs| == |types|
    ensures forall i :: 0 <= i < |types| ==> regs[i] == Registration(Collapse(types[i]), r)
  {
    seq(|types|, i requires 0 <= i < |types| => Registration(Collapse(types[i]), r))
  }

  /** The references a member contributes to the index, in order. */
  function Registrations(ns: string, m: Member): seq<Registration> {
    Pairs(Sources(m), RefOf(ns, m))
  }

  /** The members recorded under `k` by a run of registrations, in order,
      repeats kept. */
  function Referrers(regs: seq<Registration>, k: TypeKey): seq<MemberRef> {
    if |regs| == 0 then []
    else (if regs[0].key == k then [regs[0].referrer] else []) + Referrers(regs[1..], k)
  }

  /** Recording registrations one after another into an index. */
  function Record(index: Index, regs: seq<Registration>): Index
    decreases |regs|
  {
    if |regs| == 0 then index
    else
      var k := regs[0].key;
      Record(index[k := Lookup(index, k) + [regs[0].referrer]], regs[1..])
  }

  lemma {:induction false} ReferrersAppend(a: seq<Registration>, b: seq<Registration>, k: TypeKey)
    ensures Referrers(a + b, k) == Referrers(a, k) + Referrers(b, k)
    decreases |a|
  {
    if |a| == 0 {
      assert a + b == b;
    } else {
      var head := if a[0].key == k then [a[0].referrer] else [];
      assert (a + b)[0] == a[0];
      assert (a + b)[1..] == a[1..] + b;
      assert Referrers(a + b, k) == head + Referrers(a[1..] + b, k);
      ReferrersAppend(a[1..], b, k);
      assert Referrers(a, k) == head + Referrers(a[1..], k);
      assert head + (Referrers(a[1..], k) + Referrers(b, k)) == (head + Referrers(a[1..], k)) + Referrers(b, k);
    }
  }

  lemma {:induction false} RecordAppend(index: Index, a: seq<Registration>, b: seq<Registration>)
    ensures Record(index, a + b) == Record(Record(index, a), b)
    decreases |a|
  {
    if |a| == 0 {
      assert a + b == b;
    } else {
      assert (a + b)[0] == a[0];
      assert (a + b)[1..] == a[1..] + b;
      var k := a[0].key;
      RecordAppend(index[k := Lookup(index, k) + [a[0].referrer]], a[1..], b);
    }
  }

  /** Recording appends, per key, exactly the members registered under that
      key, in order; a key is present afterwards exactly when it was before
      or some registration names it. */
  lemma RecordSpec(index: Index, regs: seq<Registration>)
    ensures forall k :: Lookup(Record(index, regs), k) == Lookup(index, k) + Referrers(regs, k)
    ensures forall k :: k in Record(index, regs) <==> k in index || exists i :: 0 <= i < |regs| && regs[i].key == k
  {
    RecordLookup(index, regs);
    RecordKeys(index, regs);
  }

  lemma {:induction false} RecordLookup(index: Index, regs: seq<Registration>)
    ensures forall k :: Lookup(Record(index, regs), k) == Lookup(index, k) + Referrers(regs, k)
    decreases |regs|
  {
    if |regs| > 0 {
      var k0 := regs[0].key;
      var next := index[k0 := Lookup(index, k0) + [regs[0].referrer]];
      RecordLookup(next, regs[1..]);
      assert Record(index, regs) == Record(next, regs[1..]);
      forall k
        ensures Lookup(Record(index, regs), k) == Lookup(index, k) + Referrers(regs, k)
      {
        assert Referrers(regs, k) == (if k0 == k then [regs[0].referrer] else []) + Referrers(regs[1..], k);
        if k == k0 {
          assert Lookup(next, k) == Lookup(index, k) + [regs[0].referrer];
        } else {
          assert Lookup(next, k) == Lookup(index, k);
        }
      }
    }
  }

  lemma {:induction false} RecordKeys(index: Index, regs: seq<Registration>)
    ensures forall k :: k in Record(index, regs) <==> k in index || exists i :: 0 <= i < |regs| && regs[i].key == k
    decreases |regs|
  {
    if |regs| > 0 {
      var k0 := regs[0].key;
      var next := index[k0 := Lookup(index, k0) + [regs[0].referrer]];
      RecordKeys(next, regs[1..]);
      assert Record(index, regs) == Record(next, regs[1..]);
      forall k
        ensures k in Record(index, regs) <==> k in index || exists i :: 0 <= i < |regs| && regs[i].key == k
      {
        if exists i :: 0 <= i < |regs[1..]| && regs[1..][i].key == k {
          var i :| 0 <= i < |regs[1..]| && regs[1..][i].key == k;
          assert regs[i + 1].key == k;
        }
        if exists i :: 0 <= i < |regs| && regs[i].key == k {
          var i :| 0 <= i < |regs| && regs[i].key == k;
          if i > 0 {
            assert regs[1..][i - 1].key == k;
          }
        }
      }
    }
  }

  lemma {:induction false} AddEachRecords(index: Index, types: seq<Type>, r: MemberRef)
    ensures AddEach(index, types, r) == Record(index, Pairs(types, r))
    decreases |types|
  {
    if |types| > 0 {
      assert Pairs(types, r)[1..] == Pairs(types[1..], r);
      AddEachRecords(AddTypeReference(index, types[0], r), types[1..], r);
    }
  }

  /** Each `prep_*` handler records exactly the member's sources, in order. */
  lemma PrepareRecords(index: Index, ns: string, m: Member)
    ensures Prepare(index, ns, m) == Record(index, Registrations(ns, m))
  {
    var r := RefOf(ns, m);
    match m
    case Attribute(_, t, _) =>
      assert Pairs([t], r)[1..] == [];
    case Method(_, ins, outs, _) =>
      assert ArgTypes(ins + outs) == ArgTypes(ins) + ArgTypes(outs);
      AddEachRecords(index, ArgTypes(ins + outs), r);
    case Broadcast(_, outs, _) =>
      AddEachRecords(index, ArgTypes(outs), r);
    case Struct(_, fields, _) =>
      AddEachRecords(index, ArgTypes(fields), r);
    case Enumeration(_, _, _) =>
    case Array(_, e, _) =>
      assert Pairs([Scalar(e)], r)[1..] == [];
    case Map(_, k, v, _) =>
      var p := Pairs([Scalar(k), Scalar(v)], r);
      var k1, k2 := Collapse(Scalar(k)), Collapse(Scalar(v));
      var i1 := index[k1 := Lookup(index, k1) + [r]];
      var i2 := i1[k2 := Lookup(i1, k2) + [r]];
      assert AddTypeReference(index, Scalar(k), r) == i1;
      assert AddTypeReference(i1, Scalar(v), r) == i2;
      assert p[1..] == [p[1]] && p[1..][1..] == [];
      assert Record(index, p) == Record(i1, p[1..]);
      assert Record(i1, p[1..]) == Record(i2, []);
  }

  /** Order is kept: when two registrations for the same key occur in some
      order, the members they name appear in the recorded list in that
      order. */
  lemma ReferrersKeepOrder(regs: seq<Registration>, k: TypeKey, i: nat, j: nat)
    requires i < j < |regs| && regs[i].key == k && regs[j].key == k
    ensures var refs := Referrers(regs, k);
      exists p, q :: 0 <= p < q < |refs| && refs[p] == regs[i].referrer && refs[q] == regs[j].referrer
  {
    var a, b, c := regs[..i], regs[i + 1..j], regs[j + 1..];
    assert regs == a + ([regs[i]] + (b + ([regs[j]] + c)));
    ReferrersAppend(a, [regs[i]] + (b + ([regs[j]] + c)), k);
    ReferrersAppend([regs[i]], b + ([regs[j]] + c), k);
    ReferrersAppend(b, [regs[j]] + c, k);
    ReferrersAppend([regs[j]], c, k);
    var ra, rb, rc := Referrers(a, k), Referrers(b, k), Referrers(c, k);
    assert Referrers([regs[i]], k) == [regs[i].referrer];
    assert Referrers([regs[j]], k) == [regs[j].referrer];
    var refs := Referrers(regs, k);
    assert refs == ra + ([regs[i].referrer] + (rb + ([regs[j].referrer] + rc)));
    var p, q := |ra|, |ra| + 1 + |rb|;
    assert refs[p] == regs[i].referrer;
    assert refs[q] == regs[j].referrer;
  }
}
