/**
 * The two passes over one traversal: pass 1 builds the "used in" index with
 * the `prep_*` handlers, pass 2 renders every event with the `process_*`
 * handlers, and the document is the rendered lines joined by newlines.
 */
module Pipeline {
  import opened Text
  import opened Ast
  import opened Names
  import opened References
  import opened Walk
  import opened Render

  /** Pass 1's handler table: only member events record anything. */
  function PrepareEvent(index: Index, e: Event): Index {
    match e
    case Item(ns, m) => Prepare(index, ns.name, m)
    case _ => index
  }

  function BuildIndex(index: Index, events: seq<Event>): Index
    decreases |events|
  {
    if |events| == 0 then index else BuildIndex(PrepareEvent(index, events[0]), events[1..])
  }

  /** The index pass 1 leaves behind, starting from an empty one. */
  function TypeIndex(model: Model): Index {
    BuildIndex(map[], Events(model))
  }

  /** Pass 2's handler table. */
  function RenderEvent(e: Event, index: Index): seq<string> {
    match e
    case EnterTypeCollection(pkg, ns) => TypeCollectionHeader(pkg, ns)
    case EnterInterface(pkg, ns) => InterfaceHeader(pkg, ns)
    case Banner(items) => MajorSectionTitle(items)
    case Item(ns, m) => RenderMember(ns, m, index)
  }

  /** Pass 2's handler table over a fixed index. */
  function Renderer(index: Index): Event -> seq<string> {
    e => RenderEvent(e, index)
  }

  /** The lines of `f` for each of `xs`, one after another. */
  function ConcatMap<T>(f: T -> seq<string>, xs: seq<T>): seq<string>
    decreases |xs|
  {
    if |xs| == 0 then [] else f(xs[0]) + ConcatMap(f, xs[1..])
  }

  function RenderAll(events: seq<Event>, index: Index): seq<string> {
    ConcatMap(Renderer(index), events)
  }

  /** The lines of the generated document: pass 2 over the finished index. */
  function Convert(model: Model): seq<string> {
    RenderAll(Events(model), TypeIndex(model))
  }

  /** The text written to the output file. */
  function Document(model: Model): string {
    Join(Convert(model), '\n')
  }

  // ---------------------------------------------------------------------
  // Pass 1 against its declarative reading
  // ---------------------------------------------------------------------

  /** Every reference the members of a run of events make, in order. */
  function EventRegistrations(events: seq<Event>): seq<Registration> {
    if |events| == 0 then []
    else
      (if events[0].Item? then Registrations(events[0].ns.name, events[0].member) else [])
        + EventRegistrations(events[1..])
  }

  lemma {:induction false} BuildIndexIsRecord(index: Index, events: seq<Event>)
    ensures BuildIndex(index, events) == Record(index, EventRegistrations(events))
    decreases |events|
  {
    if |events| > 0 {
      var e := events[0];
      var head := if e.Item? then Registrations(e.ns.name, e.member) else [];
      if e.Item? {
        PrepareRecords(index, e.ns.name, e.member);
      }
      assert PrepareEvent(index, e) == Record(index, head);
      BuildIndexIsRecord(PrepareEvent(index, e), events[1..]);
      RecordAppend(index, head, EventRegistrations(events[1..]));
    }
  }

  /** Pass 1 lists, under every key, exactly the members registered under
      it during the traversal, in traversal order, repeats kept; a key is in
      the index exactly when some member refers to it. */
  lemma IndexIsReferrers(model: Model)
    ensures forall k :: Lookup(TypeIndex(model), k) == Referrers(EventRegistrations(Events(model)), k)
    ensures forall k :: k in TypeIndex(model) <==> Referrers(EventRegistrations(Events(model)), k) != []
  {
    var regs := EventRegistrations(Events(model));
    BuildIndexIsRecord(map[], Events(model));
    RecordSpec(map[], regs);
    forall k
      ensures k in TypeIndex(model) <==> Referrers(regs, k) != []
    {
      ReferrersIff(regs, k);
      if Referrers(regs, k) != [] {
        var r := Referrers(regs, k)[0];
        assert r in Referrers(regs, k);
        var i :| 0 <= i < |regs| && regs[i] == Registration(k, r);
        assert regs[i].key == k;
      }
      if k in TypeIndex(model) {
        var i :| 0 <= i < |regs| && regs[i].key == k;
        assert Registration(k, regs[i].referrer) in regs;
      }
    }
  }

  /** A member is listed under a key exactly when a registration pairs them. */
  lemma {:induction false} ReferrersIff(regs: seq<Registration>, k: TypeKey)
    ensures forall r :: r in Referrers(regs, k) <==> Registration(k, r) in regs
    decreases |regs|
  {
    if |regs| > 0 {
      ReferrersIff(regs[1..], k);
      assert regs == [regs[0]] + regs[1..];
    }
  }

  lemma {:induction false} EventRegistrationsOrigin(events: seq<Event>, x: Registration)
    ensures x in EventRegistrations(events) <==>
      exists i :: 0 <= i < |events| && events[i].Item? && x in Registrations(events[i].ns.name, events[i].member)
    decreases |events|
  {
    if |events| > 0 {
      EventRegistrationsOrigin(events[1..], x);
      if exists i :: 0 <= i < |events| && events[i].Item? && x in Registrations(events[i].ns.name, events[i].member) {
        var i :| 0 <= i < |events| && events[i].Item? && x in Registrations(events[i].ns.name, events[i].member);
        if i > 0 {
          assert events[1..][i - 1] == events[i];
        }
      }
      if x in EventRegistrations(events[1..]) {
        var i :| 0 <= i < |events[1..]| && events[1..][i].Item?
          && x in Registrations(events[1..][i].ns.name, events[1..][i].member);
        assert events[i + 1] == events[1..][i];
      }
    }
  }

  /** A member registers a key exactly when one of its sources collapses to it. */
  lemma RegistrationsOf(ns: string, m: Member, k: TypeKey, r: MemberRef)
    ensures Registration(k, r) in Registrations(ns, m) <==>
      r == RefOf(ns, m) && exists j :: 0 <= j < |Sources(m)| && Collapse(Sources(m)[j]) == k
  {
    var regs := Registrations(ns, m);
    if Registration(k, r) in regs {
      var j :| 0 <= j < |regs| && regs[j] == Registration(k, r);
      assert Collapse(Sources(m)[j]) == k;
    }
    if r == RefOf(ns, m) && exists j :: 0 <= j < |Sources(m)| && Collapse(Sources(m)[j]) == k {
      var j :| 0 <= j < |Sources(m)| && Collapse(Sources(m)[j]) == k;
      assert regs[j] == Registration(k, r);
    }
  }

  /** Event `e` visits a member named by `r`, one of whose sources (argument,
      field, attribute, element, key or value type) collapses to `k`. */
  predicate RefersTo(e: Event, k: TypeKey, r: MemberRef) {
    && e.Item?
    && r == RefOf(e.ns.name, e.member)
    && exists j :: 0 <= j < |Sources(e.member)| && Collapse(Sources(e.member)[j]) == k
  }

  /** The "used in" index, read declaratively: after pass 1 over a
      traversal, a member is listed under a type exactly when the traversal
      visits it and one of the types it refers to collapses to that type. */
  lemma ListedIffRefers(events: seq<Event>, k: TypeKey, r: MemberRef)
    ensures r in Lookup(BuildIndex(map[], events), k) <==>
      exists i :: 0 <= i < |events| && RefersTo(events[i], k, r)
  {
    var regs := EventRegistrations(events);
    BuildIndexIsRecord(map[], events);
    RecordSpec(map[], regs);
    ReferrersIff(regs, k);
    EventRegistrationsOrigin(events, Registration(k, r));
    if r in Lookup(BuildIndex(map[], events), k) {
      var i :| 0 <= i < |events| && events[i].Item?
        && Registration(k, r) in Registrations(events[i].ns.name, events[i].member);
      RegistrationsOf(events[i].ns.name, events[i].member, k, r);
      assert RefersTo(events[i], k, r);
    }
    if exists i :: 0 <= i < |events| && RefersTo(events[i], k, r) {
      var i :| 0 <= i < |events| && RefersTo(events[i], k, r);
      RegistrationsOf(events[i].ns.name, events[i].member, k, r);
    }
  }

  // ---------------------------------------------------------------------
  // Pass 2
  // ---------------------------------------------------------------------

  lemma RenderAllAppend(a: seq<Event>, b: seq<Event>, index: Index)
    ensures RenderAll(a + b, index) == RenderAll(a, index) + RenderAll(b, index)
  {
    ConcatMapAppend(Renderer(index), a, b);
  }

  lemma {:induction false} ConcatMapAppend<T>(f: T -> seq<string>, a: seq<T>, b: seq<T>)
    ensures ConcatMap(f, a + b) == ConcatMap(f, a) + ConcatMap(f, b)
    decreases |a|
  {
    if |a| == 0 {
      assert a + b == b;
    } else {
      assert (a + b)[0] == a[0];
      assert (a + b)[1..] == a[1..] + b;
      ConcatMapAppend(f, a[1..], b);
    }
  }

  /** Each event's lines appear in the document as one contiguous block,
      after the blocks of all earlier events. */
  lemma EventBlock(events: seq<Event>, index: Index, i: nat)
    requires i < |events|
    ensures RenderAll(events, index)
      == RenderAll(events[..i], index) + RenderEvent(events[i], index) + RenderAll(events[i + 1..], index)
  {
    var before, here, after := events[..i], [events[i]], events[i + 1..];
    assert events == before + (here + after);
    RenderAllAppend(before, here + after, index);
    RenderAllAppend(here, after, index);
    RenderOne(events[i], index);
  }

  lemma RenderOne(e: Event, index: Index)
    ensures RenderAll([e], index) == RenderEvent(e, index)
  {
    assert [e][0] == e && [e][1..] == [];
    assert RenderAll([e], index) == Renderer(index)(e) + ConcatMap(Renderer(index), []);
    assert Renderer(index)(e) == RenderEvent(e, index);
  }

  /** The sections of a list's members, one after another. */
  function Sections(ns: Namespace, items: seq<Member>, index: Index): seq<string> {
    ConcatMap(SectionOf(ns, index), items)
  }

  function SectionOf(ns: Namespace, index: Index): Member -> seq<string> {
    m => RenderMember(ns, m, index)
  }

  /** Two concatenations agree when their parts agree one by one. */
  lemma {:induction false} ConcatMapPointwise<T, U>(f: T -> seq<string>, xs: seq<T>, g: U -> seq<string>, ys: seq<U>)
    requires |xs| == |ys|
    requires forall i :: 0 <= i < |xs| ==> f(xs[i]) == g(ys[i])
    ensures ConcatMap(f, xs) == ConcatMap(g, ys)
    decreases |xs|
  {
    if |xs| > 0 {
      assert f(xs[0]) == g(ys[0]);
      assert forall i :: 0 <= i < |xs[1..]| ==> xs[1..][i] == xs[i + 1] && ys[1..][i] == ys[i + 1];
      ConcatMapPointwise(f, xs[1..], g, ys[1..]);
    }
  }

  /** The item calls of one list render as the members' sections. */
  lemma ItemEventsRender(ns: Namespace, items: seq<Member>, index: Index)
    ensures RenderAll(ItemEvents(ns, items), index) == Sections(ns, items, index)
  {
    var events := ItemEvents(ns, items);
    forall i | 0 <= i < |events|
      ensures Renderer(index)(events[i]) == SectionOf(ns, index)(items[i])
    {
      assert events[i] == Item(ns, items[i]);
    }
    ConcatMapPointwise(Renderer(index), events, SectionOf(ns, index), items);
  }

  /** The lines pass 2 emits for one item list: its banner, then the
      sections of its members. */
  function ListLines(ns: Namespace, items: seq<Member>, index: Index): seq<string> {
    MajorSectionTitle(items) + Sections(ns, items, index)
  }

  function ListLinesOf(ns: Namespace, index: Index): seq<Member> -> seq<string> {
    items => ListLines(ns, items, index)
  }

  lemma ListBlockRender(ns: Namespace, items: seq<Member>, index: Index)
    ensures RenderAll(ListBlock(ns, items), index) == ListLines(ns, items, index)
  {
    RenderAllAppend([Banner(items)], ItemEvents(ns, items), index);
    RenderOne(Banner(items), index);
    ItemEventsRender(ns, items, index);
  }

  /** `process_item_lists` in pass 2: list after list, each list's banner
      followed by its members' sections. */
  lemma {:induction false} ListEventsRender(ns: Namespace, lists: seq<seq<Member>>, index: Index)
    ensures RenderAll(ListEvents(ns, lists), index) == ConcatMap(ListLinesOf(ns, index), lists)
    decreases |lists|
  {
    if |lists| > 0 {
      var rest := ListEvents(ns, lists[1..]);
      assert ListEvents(ns, lists) == ListBlock(ns, lists[0]) + rest;
      RenderAllAppend(ListBlock(ns, lists[0]), rest, index);
      ListBlockRender(ns, lists[0], index);
      ListEventsRender(ns, lists[1..], index);
      assert ListLinesOf(ns, index)(lists[0]) == ListLines(ns, lists[0], index);
    }
  }

  /** The members of each item list are of the list's kind, as the parser
      builds them. */
  predicate WellKinded(ns: Namespace) {
    && (forall i :: 0 <= i < |ns.attributes| ==> ns.attributes[i].Attribute?)
    && (forall i :: 0 <= i < |ns.methods| ==> ns.methods[i].Method?)
    && (forall i :: 0 <= i < |ns.broadcasts| ==> ns.broadcasts[i].Broadcast?)
    && (forall i :: 0 <= i < |ns.structs| ==> ns.structs[i].Struct?)
    && (forall i :: 0 <= i < |ns.enumerations| ==> ns.enumerations[i].Enumeration?)
    && (forall i :: 0 <= i < |ns.arrays| ==> ns.arrays[i].Array?)
    && (forall i :: 0 <= i < |ns.maps| ==> ns.maps[i].Map?)
  }

  /** The kind each of an interface's item lists holds, in traversal order. */
  const InterfaceKinds := ["Attribute", "Method", "Broadcast", "Struct", "Enumeration", "Array", "Map"]

  /** In an interface, every non-empty item list is headed by the banner of
      its kind (`Attributes`, `Methods`, ..., `Maps`), and an empty one by
      nothing; a type collection's lists are the last four of these. */
  lemma InterfaceBanners(ns: Namespace, j: nat)
    requires WellKinded(ns) && j < 7
    ensures var items := InterfaceLists(ns)[j];
      MajorSectionTitle(items) == if |items| == 0 then [] else ["\n== " + InterfaceKinds[j] + "s\n"]
    ensures j >= 3 ==> InterfaceLists(ns)[j] == TypeCollectionLists(ns)[j - 3]
  {
    var items := InterfaceLists(ns)[j];
    if |items| > 0 {
      forall i | 0 <= i < |items|
        ensures KindName(items[i]) == InterfaceKinds[j]
      {
      }
      BannerNamesKind(items, InterfaceKinds[j]);
    }
  }

  /** The section of a named type lists, after "Used in: ", a link to each
      member that refers to it, in traversal order; it has no such line when
      nothing refers to it. */
  lemma UsedInLineListsReferrers(model: Model, ns: Namespace, m: Member)
    requires m.IsTypeDefinition()
    ensures var k := DefinedKey(DefOf(ns.name, m));
      var refs := Referrers(EventRegistrations(Events(model)), k);
      var line := UsedInFor(TypeIndex(model), ns, m);
      && (refs == [] <==> line == [])
      && (refs != [] ==>
            line[0] == UsedInHeader
            && line[1..] == UsedInEntries(refs, refs[0])
            && Links(line[1..]) == seq(|refs|, i requires 0 <= i < |refs| => MemberLink(refs[i])))
  {
    IndexIsReferrers(model);
    var k := DefinedKey(DefOf(ns.name, m));
    var index := TypeIndex(model);
    if k in index {
      assert ([UsedInHeader] + UsedInEntries(index[k], index[k][0]))[1..] == UsedInEntries(index[k], index[k][0]);
    }
  }

  /** Call `i` of `events` is a named type's section, and `doc` holds that
      type's "used in" line as a contiguous run of lines, after the lines of
      every earlier call and the section's title, type lines and
      description. */
  predicate UsedInLineAt(doc: seq<string>, events: seq<Event>, index: Index, i: nat)
    requires i < |events| && events[i].Item? && events[i].member.IsTypeDefinition()
  {
    var e := events[i];
    var line := UsedInFor(index, e.ns, e.member);
    var p := |RenderAll(events[..i], index)| + UsedInOffset(e.ns, e.member);
    && p + |line| <= |doc|
    && doc[p..p + |line|] == line
  }

  /** The "used in" line of every visited named type is in the document. */
  lemma UsedInLineInDocument(model: Model, i: nat)
    requires i < |Events(model)| && Events(model)[i].Item? && Events(model)[i].member.IsTypeDefinition()
    ensures UsedInLineAt(Convert(model), Events(model), TypeIndex(model), i)
  {
    UsedInLineInRun(Events(model), TypeIndex(model), i);
  }

  /** The same, for pass 2 over any run of handler calls. */
  lemma UsedInLineInRun(events: seq<Event>, index: Index, i: nat)
    requires i < |events| && events[i].Item? && events[i].member.IsTypeDefinition()
    ensures UsedInLineAt(RenderAll(events, index), events, index, i)
  {
    var e := events[i];
    var before, after := RenderAll(events[..i], index), RenderAll(events[i + 1..], index);
    var section, bare := RenderMember(e.ns, e.member, index), RenderMember(e.ns, e.member, map[]);
    var q, line := UsedInOffset(e.ns, e.member), UsedInFor(index, e.ns, e.member);
    ItemBlock(events, index, i);
    UsedInPlacement(e.ns, e.member, index);
    InBlock(RenderAll(events, index), before, section, bare, q, line, after);
  }

  /** The document of a run is the part before item `i`, its section,
      and the part after it. */
  lemma ItemBlock(events: seq<Event>, index: Index, i: nat)
    requires i < |events| && events[i].Item?
    ensures RenderAll(events, index)
      == RenderAll(events[..i], index) + RenderMember(events[i].ns, events[i].member, index)
         + RenderAll(events[i + 1..], index)
  {
    EventBlock(events, index, i);
    ItemRender(events[i], index);
  }

  lemma InBlock(doc: seq<string>, before: seq<string>, section: seq<string>, bare: seq<string>,
                q: nat, line: seq<string>, after: seq<string>)
    requires doc == before + section + after
    requires q <= |bare| && section == bare[..q] + line + bare[q..]
    ensures |before| + q + |line| <= |doc|
    ensures doc[|before| + q..|before| + q + |line|] == line
  {
    assert doc == (before + bare[..q]) + line + (bare[q..] + after);
  }

  lemma ItemRender(e: Event, index: Index)
    requires e.Item?
    ensures RenderEvent(e, index) == RenderMember(e.ns, e.member, index)
  {
  }

}
