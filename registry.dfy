/** The command registry of a console, as a value.

    The engine keeps the registered commands in a singly linked list that
    starts at the console's root pointer, and every command points back at
    its console. Here the list is the sequence of its nodes in link order:
    "append at the tail" is `+ [e]`, and relinking around a node is removing
    it from the sequence. `H` is whatever identifies a command (the engine
    model uses its command objects). */
module Registry {
  import opened Bytes
  import opened Terminal

  /** What a command runs when it is dispatched: a user callback (a foreign
      function, known here only by an identifier) or the built-in command
      that lists the registry. */
  datatype Callback = User(id: nat) | ListCommand

  /** One registered command: its identity, its name and its callback. */
  datatype Entry<H> = Entry(handle: H, name: seq<Ascii>, callback: Callback)

  /** No two registered commands share a name. */
  predicate UniqueNames<H>(es: seq<Entry<H>>) {
    forall i, j :: 0 <= i < j < |es| ==> es[i].name != es[j].name
  }

  /** The names, in registry order. */
  function Names<H>(es: seq<Entry<H>>): (ns: seq<seq<Ascii>>)
    ensures |ns| == |es|
    ensures forall i :: 0 <= i < |es| ==> ns[i] == es[i].name
  {
    seq(|es|, i requires 0 <= i < |es| => es[i].name)
  }

  /** The lookup the engine performs by walking the list from the root: the
      position of the first command with exactly this name, if any. */
  function Find<H>(es: seq<Entry<H>>, name: seq<Ascii>): (r: Option<nat>)
    ensures r.Some? ==> r.value < |es| && es[r.value].name == name
    ensures r.Some? ==> forall j :: 0 <= j < r.value ==> es[j].name != name
    ensures r.None? <==> forall j :: 0 <= j < |es| ==> es[j].name != name
    decreases |es|
  {
    if es == [] then None
    else if es[0].name == name then Some(0)
    else match Find(es[1..], name)
      case None => None
      case Some(i) => Some(i + 1)
  }

  /** In a registry with unique names every command is found by its own
      name. */
  lemma FindOwnName<H>(es: seq<Entry<H>>, i: nat)
    requires UniqueNames(es) && i < |es|
    ensures Find(es, es[i].name) == Some(i)
  {
  }

  /** Lookup after appending at the tail: a name already present is found
      where it was, and otherwise the new command is found at the end when
      the name is its own. */
  lemma {:induction false} FindAppend<H>(es: seq<Entry<H>>, e: Entry<H>, name: seq<Ascii>)
    ensures Find(es + [e], name) ==
              if Find(es, name).Some? then Find(es, name)
              else if e.name == name then Some(|es|)
              else None
    decreases |es|
  {
    if es != [] {
      assert (es + [e])[0] == es[0];
      assert (es + [e])[1..] == es[1..] + [e];
      FindAppend(es[1..], e, name);
    }
  }

  /** Registering a command whose name is not yet taken appends it at the
      tail: the names stay unique, the new command is found at the end, and
      every other name is found where it was before. */
  lemma AppendFresh<H>(es: seq<Entry<H>>, e: Entry<H>)
    requires UniqueNames(es) && Find(es, e.name).None?
    ensures UniqueNames(es + [e])
    ensures Find(es + [e], e.name) == Some(|es|)
    ensures forall n :: n != e.name ==> Find(es + [e], n) == Find(es, n)
  {
    FindAppend(es, e, e.name);
    forall n | n != e.name ensures Find(es + [e], n) == Find(es, n) {
      FindAppend(es, e, n);
    }
  }

  /** The position of the first occurrence of the command `h`, if any. */
  function IndexOf<H(==)>(es: seq<Entry<H>>, h: H): (r: Option<nat>)
    ensures r.Some? ==> r.value < |es| && es[r.value].handle == h
    ensures r.Some? ==> forall j :: 0 <= j < r.value ==> es[j].handle != h
    ensures r.None? <==> forall j :: 0 <= j < |es| ==> es[j].handle != h
    decreases |es|
  {
    if es == [] then None
    else if es[0].handle == h then Some(0)
    else match IndexOf(es[1..], h)
      case None => None
      case Some(i) => Some(i + 1)
  }

  /** Unregistering `h`: the root moves on when `h` is the first command,
      otherwise its predecessor is relinked past it; a command that is not
      in the list leaves it as it is. */
  function Remove<H(==)>(es: seq<Entry<H>>, h: H): seq<Entry<H>> {
    match IndexOf(es, h)
      case None => es
      case Some(i) => es[..i] + es[i + 1..]
  }

  /** Removing a command keeps every other command, in the same relative
      order, keeps the names unique, and the removed name is no longer
      found. */
  lemma RemoveKeepsOrder<H>(es: seq<Entry<H>>, h: H)
    requires UniqueNames(es)
    ensures IndexOf(es, h).Some? ==> |Remove(es, h)| == |es| - 1
    ensures IndexOf(es, h).None? ==> Remove(es, h) == es
    ensures forall i :: 0 <= i < |Remove(es, h)| ==>
              Remove(es, h)[i] == es[if IndexOf(es, h).Some? && i >= IndexOf(es, h).value then i + 1 else i]
    ensures UniqueNames(Remove(es, h))
    ensures IndexOf(es, h).Some? ==> Find(Remove(es, h), es[IndexOf(es, h).value].name).None?
  {
    var r := IndexOf(es, h);
    if r.Some? {
      var k := r.value;
      var es' := Remove(es, h);
      assert es' == es[..k] + es[k + 1..];
      forall i | 0 <= i < |es'| ensures es'[i] == es[if i >= k then i + 1 else i] {
      }
      forall i, j | 0 <= i < j < |es'| ensures es'[i].name != es'[j].name {
        assert es'[i] == es[if i >= k then i + 1 else i];
        assert es'[j] == es[if j >= k then j + 1 else j];
      }
      forall j | 0 <= j < |es'| ensures es'[j].name != es[k].name {
        assert es'[j] == es[if j >= k then j + 1 else j];
      }
    }
  }

  /** The lines the built-in list command writes: each name through the
      translating path followed by a newline, in registry order. */
  function Listing<H>(es: seq<Entry<H>>): seq<Ascii>
    decreases |es|
  {
    if es == [] then [] else Listing(es[..|es| - 1]) + TranslateString(es[|es| - 1].name) + [CR, LF]
  }

  /** Listing one more command at the tail adds its line. */
  lemma ListingSnoc<H>(es: seq<Entry<H>>, e: Entry<H>)
    ensures Listing(es + [e]) == Listing(es) + TranslateString(e.name) + [CR, LF]
  {
    assert (es + [e])[..|es|] == es;
  }

  /** The names one per line, as text. */
  function Lines(ns: seq<seq<Ascii>>): seq<Ascii>
    decreases |ns|
  {
    if ns == [] then [] else Lines(ns[..|ns| - 1]) + ns[|ns| - 1] + [LF]
  }

  /** The listing is the translation of the names written one per line. */
  lemma {:induction false} ListingIsLines<H>(es: seq<Entry<H>>)
    ensures Listing(es) == TranslateString(Lines(Names(es)))
    decreases |es|
  {
    if es != [] {
      var init, last := es[..|es| - 1], es[|es| - 1];
      ListingIsLines(init);
      assert Names(es)[..|es| - 1] == Names(init);
      var before := Lines(Names(init));
      TranslateAppend(before + last.name, [LF]);
      TranslateAppend(before, last.name);
      assert TranslateString([LF]) == [CR, LF] by {
        assert [LF][..0] == [];
      }
    }
  }

  /** A terminal that reads the listing back gets every registered name,
      one per line, in registration order: the listing loses nothing. */
  lemma ListingReadsBack<H>(es: seq<Entry<H>>)
    ensures Untranslate(Listing(es)) == Lines(Names(es))
  {
    ListingIsLines(es);
    UntranslateTranslate(Lines(Names(es)));
  }
}
