/**
 * `iterate_fidl` and `process_item_lists`: the one traversal both passes
 * run. It is modelled as the sequence of handler calls it makes; a pass is
 * then a handler table applied to that sequence.
 */
module Walk {
  import opened Ast

  /** One handler call of the traversal. */
  datatype Event =
    | EnterTypeCollection(pkg: Package, ns: Namespace)
    | EnterInterface(pkg: Package, ns: Namespace)
    | Banner(items: seq<Member>)
    | Item(ns: Namespace, member: Member)

  /** The item lists of a type collection, in traversal order. */
  function TypeCollectionLists(ns: Namespace): seq<seq<Member>> {
    [ns.structs, ns.enumerations, ns.arrays, ns.maps]
  }

  /** The item lists of an interface, in traversal order. */
  function InterfaceLists(ns: Namespace): seq<seq<Member>> {
    [ns.attributes, ns.methods, ns.broadcasts, ns.structs, ns.enumerations, ns.arrays, ns.maps]
  }

  function Flatten<T>(xss: seq<seq<T>>): seq<T> {
    if |xss| == 0 then [] else xss[0] + Flatten(xss[1..])
  }

  /** The members visited by a run of events, in order. */
  function Visited(events: seq<Event>): seq<Member> {
    if |events| == 0 then []
    else (if events[0].Item? then [events[0].member] else []) + Visited(events[1..])
  }

  lemma {:induction false} VisitedAppend(a: seq<Event>, b: seq<Event>)
    ensures Visited(a + b) == Visited(a) + Visited(b)
    decreases |a|
  {
    if |a| == 0 {
      assert a + b == b;
    } else {
      assert (a + b)[0] == a[0];
      assert (a + b)[1..] == a[1..] + b;
      VisitedAppend(a[1..], b);
    }
  }

  /** One handler call per item, each carrying the namespace being walked. */
  function ItemEvents(ns: Namespace, items: seq<Member>): (events: seq<Event>)
    ensures |events| == |items|
    ensures forall i :: 0 <= i < |items| ==> events[i] == Item(ns, items[i])
    ensures Visited(events) == items
    decreases |items|
  {
    if |items| == 0 then []
    else
      var rest := ItemEvents(ns, items[1..]);
      VisitedAppend([Item(ns, items[0])], rest);
      [Item(ns, items[0])] + rest
  }

  /** `process_item_lists`: for each list a banner call, then one call per
      item. Every item of every list is visited once, in list order. */
  function ListEvents(ns: Namespace, lists: seq<seq<Member>>): (events: seq<Event>)
    ensures Visited(events) == Flatten(lists)
    ensures |lists| > 0 ==> |events| > 0 && events[0] == Banner(lists[0])
    ensures forall i :: 0 <= i < |events| && events[i].Item? ==> events[i].ns == ns
    decreases |lists|
  {
    if |lists| == 0 then []
    else
      var banner := [Banner(lists[0])];
      var items := ItemEvents(ns, lists[0]);
      var head := banner + items;
      var rest := ListEvents(ns, lists[1..]);
      assert banner[1..] == [];
      assert Visited(banner) == [];
      VisitedAppend(banner, items);
      assert Visited(head) == lists[0];
      VisitedAppend(head, rest);
      head + rest
  }

  /** The calls `process_item_lists` makes for one list: the banner call
      with the whole list, then one call per item. */
  function ListBlock(ns: Namespace, items: seq<Member>): seq<Event> {
    [Banner(items)] + ItemEvents(ns, items)
  }

  function ListBlocks(ns: Namespace, lists: seq<seq<Member>>): (blocks: seq<seq<Event>>)
    ensures |blocks| == |lists|
  {
    seq(|lists|, j requires 0 <= j < |lists| => ListBlock(ns, lists[j]))
  }

  /** `process_item_lists` makes, list after list, one block of calls per
      list: its banner, then its items. */
  lemma {:induction false} ListEventsBlocks(ns: Namespace, lists: seq<seq<Member>>)
    ensures ListEvents(ns, lists) == Flatten(ListBlocks(ns, lists))
    decreases |lists|
  {
    if |lists| > 0 {
      var blocks := ListBlocks(ns, lists);
      assert blocks[0] == ListBlock(ns, lists[0]);
      assert blocks[1..] == ListBlocks(ns, lists[1..]);
      ListEventsBlocks(ns, lists[1..]);
    }
  }

  function TypeCollectionEvents(pkg: Package, tcs: seq<Namespace>): seq<Event>
    decreases |tcs|
  {
    if |tcs| == 0 then []
    else
      [EnterTypeCollection(pkg, tcs[0])] + ListEvents(tcs[0], TypeCollectionLists(tcs[0]))
        + TypeCollectionEvents(pkg, tcs[1..])
  }

  function InterfaceEvents(pkg: Package, ifs: seq<Namespace>): seq<Event>
    decreases |ifs|
  {
    if |ifs| == 0 then []
    else
      [EnterInterface(pkg, ifs[0])] + ListEvents(ifs[0], InterfaceLists(ifs[0]))
        + InterfaceEvents(pkg, ifs[1..])
  }

  /** `iterate_fidl`: per package, its type collections and then its
      interfaces, each opened by its namespace handler and followed by its
      item lists. */
  function Events(model: Model): seq<Event>
    decreases |model|
  {
    if |model| == 0 then []
    else
      TypeCollectionEvents(model[0], model[0].typeCollections)
        + InterfaceEvents(model[0], model[0].interfaces) + Events(model[1..])
  }

  function TypeCollectionMembers(tcs: seq<Namespace>): seq<Member> {
    if |tcs| == 0 then [] else Flatten(TypeCollectionLists(tcs[0])) + TypeCollectionMembers(tcs[1..])
  }

  function InterfaceMembers(ifs: seq<Namespace>): seq<Member> {
    if |ifs| == 0 then [] else Flatten(InterfaceLists(ifs[0])) + InterfaceMembers(ifs[1..])
  }

  /** Every member the model declares, in declaration order: per package,
      the type collections' structs, enumerations, arrays and maps, then the
      interfaces' attributes, methods, broadcasts, structs, enumerations,
      arrays and maps. */
  function ModelMembers(model: Model): seq<Member> {
    if |model| == 0 then []
    else
      TypeCollectionMembers(model[0].typeCollections) + InterfaceMembers(model[0].interfaces)
        + ModelMembers(model[1..])
  }

  lemma {:induction false} TypeCollectionsVisited(pkg: Package, tcs: seq<Namespace>)
    ensures Visited(TypeCollectionEvents(pkg, tcs)) == TypeCollectionMembers(tcs)
    decreases |tcs|
  {
    if |tcs| > 0 {
      var open := [EnterTypeCollection(pkg, tcs[0])];
      var body := ListEvents(tcs[0], TypeCollectionLists(tcs[0]));
      var rest := TypeCollectionEvents(pkg, tcs[1..]);
      TypeCollectionsVisited(pkg, tcs[1..]);
      VisitedAppend(open, body);
      VisitedAppend(open + body, rest);
    }
  }

  lemma {:induction false} InterfacesVisited(pkg: Package, ifs: seq<Namespace>)
    ensures Visited(InterfaceEvents(pkg, ifs)) == InterfaceMembers(ifs)
    decreases |ifs|
  {
    if |ifs| > 0 {
      var open := [EnterInterface(pkg, ifs[0])];
      var body := ListEvents(ifs[0], InterfaceLists(ifs[0]));
      var rest := InterfaceEvents(pkg, ifs[1..]);
      InterfacesVisited(pkg, ifs[1..]);
      VisitedAppend(open, body);
      VisitedAppend(open + body, rest);
    }
  }

  /** The traversal visits every declared member exactly once, in
      declaration order. */
  lemma {:induction false} EventsVisitAll(model: Model)
    ensures Visited(Events(model)) == ModelMembers(model)
    decreases |model|
  {
    if |model| > 0 {
      var tc := TypeCollectionEvents(model[0], model[0].typeCollections);
      var ifs := InterfaceEvents(model[0], model[0].interfaces);
      EventsVisitAll(model[1..]);
      TypeCollectionsVisited(model[0], model[0].typeCollections);
      InterfacesVisited(model[0], model[0].interfaces);
      VisitedAppend(tc, ifs);
      VisitedAppend(tc + ifs, Events(model[1..]));
    }
  }
}
