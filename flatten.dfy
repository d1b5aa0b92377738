/** The nested mod list and its flattening (`flat_gen`).

    A parsed YAML value is a scalar, a list or a mapping. The generator
    is modelled on the whole output sequence: the only caller collects it
    into a set, so an exception raised part-way loses every item. */
module Flatten {
  import opened Results

  /** A non-iterable leaf: a string, or any other scalar the YAML loader
      produces (integer, float, boolean, null), kept as its literal text. */
  datatype Atom = Text(s: string) | Other(lit: string)

  /** A parsed YAML value. A mapping keeps its entries in insertion order;
      its keys are hashable scalars. */
  datatype Yaml = Scalar(atom: Atom) | List(items: seq<Yaml>) | Dict(entries: seq<(Atom, Yaml)>)

  /** Iterating a non-string scalar raises TypeError. */
  datatype FlatError = NotIterable(lit: string)

  type Flat = Result<seq<Atom>, FlatError>

  /** Sequencing of two parts of the generator: the first part's exception
      wins, otherwise the items are concatenated. */
  function Then(a: Flat, b: Flat): Flat {
    if a.Err? then a else if b.Err? then b else Ok(a.value + b.value)
  }

  function Chars(s: string): seq<Atom> {
    seq(|s|, i requires 0 <= i < |s| => Text([s[i]]))
  }

  function Keys(entries: seq<(Atom, Yaml)>): seq<Atom> {
    seq(|entries|, i requires 0 <= i < |entries| => entries[i].0)
  }

  /** `flat_gen(x)`: iterate over `x` and flatten each element. Iterating a
      string yields its one-character strings, iterating a mapping yields its
      keys (its values are not visited), iterating any other scalar fails. */
  function FlatGen(x: Yaml): Flat
    decreases x, 1
  {
    match x
    case Scalar(Text(s)) => Ok(Chars(s))
    case Scalar(Other(lit)) => Err(NotIterable(lit))
    case List(items) => FlatItems(items)
    case Dict(entries) => Ok(Keys(entries))
  }

  /** The loop body of `flat_gen` applied to the elements of a list, in order. */
  function FlatItems(items: seq<Yaml>): Flat
    decreases items, 0
  {
    if items == [] then Ok([])
    else Then(FlatElem(items[0]), FlatItems(items[1..]))
  }

  /** One element: a mapping yields each key followed by the flattening of
      its value; a string or other scalar is yielded as it is; a list is
      flattened recursively. */
  function FlatElem(el: Yaml): Flat
    decreases el, 2
  {
    match el
    case Dict(entries) => FlatEntries(entries)
    case Scalar(a) => Ok([a])
    case List(items) => FlatItems(items)
  }

  function FlatEntries(entries: seq<(Atom, Yaml)>): Flat
    decreases entries, 0
  {
    if entries == [] then Ok([])
    else
      var (key, value) := entries[0];
      assert value < entries[0];
      Then(Then(Ok([key]), FlatGen(value)), FlatEntries(entries[1..]))
  }

  /** The references the caller collects: the flattened items as a set. */
  function RefSet(x: Yaml): set<Atom>
    requires FlatGen(x).Ok?
  {
    set a | a in FlatGen(x).value
  }

  /** A list holding each atom of `atoms` as a scalar element. */
  function Lift(atoms: seq<Atom>): seq<Yaml> {
    seq(|atoms|, i requires 0 <= i < |atoms| => Scalar(atoms[i]))
  }

  lemma ThenAssoc(a: Flat, b: Flat, c: Flat)
    ensures Then(Then(a, b), c) == Then(a, Then(b, c))
  {
    if a.Ok? && b.Ok? && c.Ok? {
      assert (a.value + b.value) + c.value == a.value + (b.value + c.value);
    }
  }

  lemma ThenUnit(a: Flat)
    ensures Then(Ok([]), a) == a && Then(a, Ok([])) == a
  {
    if a.Ok? {
      assert [] + a.value == a.value + [] == a.value;
    }
  }

  /** Flattening distributes over concatenation of lists. */
  lemma {:induction false} FlatItemsAppend(a: seq<Yaml>, b: seq<Yaml>)
    ensures FlatItems(a + b) == Then(FlatItems(a), FlatItems(b))
  {
    if a == [] {
      assert a + b == b;
      ThenUnit(FlatItems(b));
    } else {
      assert (a + b)[0] == a[0];
      assert (a + b)[1..] == a[1..] + b;
      FlatItemsAppend(a[1..], b);
      ThenAssoc(FlatElem(a[0]), FlatItems(a[1..]), FlatItems(b));
    }
  }

  /** The entries of a mapping are flattened one after another. */
  lemma {:induction false} FlatEntriesAppend(a: seq<(Atom, Yaml)>, b: seq<(Atom, Yaml)>)
    ensures FlatEntries(a + b) == Then(FlatEntries(a), FlatEntries(b))
  {
    if a == [] {
      assert a + b == b;
      ThenUnit(FlatEntries(b));
    } else {
      assert (a + b)[0] == a[0];
      assert (a + b)[1..] == a[1..] + b;
      FlatEntriesAppend(a[1..], b);
      ThenAssoc(Then(Ok([a[0].0]), FlatGen(a[0].1)), FlatEntries(a[1..]), FlatEntries(b));
    }
  }

  /** In a mapping element, the key of entry `i` is emitted right after the
      output of the entries before it, and is immediately followed by the
      flattening of its own value. */
  lemma KeyThenValue(entries: seq<(Atom, Yaml)>, i: nat)
    requires i < |entries|
    requires FlatElem(Dict(entries)).Ok?
    ensures FlatEntries(entries[..i]).Ok? && FlatGen(entries[i].1).Ok?
    ensures var out := FlatElem(Dict(entries)).value;
            var p := |FlatEntries(entries[..i]).value|;
            var v := FlatGen(entries[i].1).value;
            p + 1 + |v| <= |out| && out[p] == entries[i].0 && out[p + 1..p + 1 + |v|] == v
  {
    var before, rest := entries[..i], entries[i..];
    assert entries == before + rest;
    FlatEntriesAppend(before, rest);
    assert rest[0] == entries[i];
  }

  /** A nested list adds nothing: its elements are flattened in place. */
  lemma NestedListInlined(a: seq<Yaml>, b: seq<Yaml>, c: seq<Yaml>)
    ensures FlatItems(a + [List(b)] + c) == FlatItems(a + b + c)
  {
    FlatItemsAppend(a + [List(b)], c);
    FlatItemsAppend(a, [List(b)]);
    FlatItemsAppend(a + b, c);
    FlatItemsAppend(a, b);
    assert FlatItems([List(b)]) == Then(FlatItems(b), Ok([]));
    ThenAssoc(FlatItems(a), FlatItems(b), FlatItems(c));
    ThenAssoc(FlatItems(a), FlatItems([List(b)]), FlatItems(c));
    if FlatItems(b).Ok? {
      assert FlatItems(b).value + [] == FlatItems(b).value;
    }
  }

  /** A list of strings and scalars flattens to exactly those atoms: every
      element is emitted once, and a string is never split. */
  lemma {:induction false} FlatAtoms(atoms: seq<Atom>)
    ensures FlatItems(Lift(atoms)) == Ok(atoms)
  {
    if atoms != [] {
      assert Lift(atoms)[1..] == Lift(atoms[1..]);
      FlatAtoms(atoms[1..]);
      assert [atoms[0]] + atoms[1..] == atoms;
    }
  }

  /** Flattening is idempotent: flattening its own output changes nothing. */
  lemma FlatIdempotent(x: Yaml)
    requires FlatGen(x).Ok?
    ensures FlatGen(List(Lift(FlatGen(x).value))) == FlatGen(x)
  {
    FlatAtoms(FlatGen(x).value);
  }

  /** A scalar element of a list is among the flattened items. */
  lemma {:induction false} ScalarEmitted(items: seq<Yaml>, i: nat)
    requires i < |items| && items[i].Scalar?
    requires FlatItems(items).Ok?
    ensures items[i].atom in FlatItems(items).value
  {
    assert items == items[..i] + items[i..];
    FlatItemsAppend(items[..i], items[i..]);
    assert items[i..][0] == items[i];
  }

  /** Every item emitted for element `i` of a list is among the list's
      flattened items. */
  lemma ElemEmitted(items: seq<Yaml>, i: nat)
    requires i < |items| && FlatItems(items).Ok?
    ensures FlatElem(items[i]).Ok?
    ensures forall a | a in FlatElem(items[i]).value :: a in FlatItems(items).value
  {
    assert items == items[..i] + items[i..];
    FlatItemsAppend(items[..i], items[i..]);
    assert items[i..][0] == items[i];
  }

  /** The reference set of a mod list, read off the tree: it holds every
      scalar element of the list and every key of every mapping element. */
  lemma RefSetMembers(items: seq<Yaml>, i: nat)
    requires i < |items| && FlatItems(items).Ok?
    ensures FlatGen(List(items)).Ok?
    ensures items[i].Scalar? ==> items[i].atom in RefSet(List(items))
    ensures items[i].Dict? ==>
              forall k | 0 <= k < |items[i].entries| :: items[i].entries[k].0 in RefSet(List(items))
  {
    ElemEmitted(items, i);
    if items[i].Dict? {
      var entries := items[i].entries;
      forall k | 0 <= k < |entries| ensures entries[k].0 in RefSet(List(items)) {
        KeyThenValue(entries, k);
        var p := |FlatEntries(entries[..k]).value|;
        assert FlatElem(items[i]).value[p] == entries[k].0;
      }
    }
  }

  /** A mapping given as the value of a key is iterated as a mapping, so it
      yields only its own keys: nothing beneath them is visited, and a null
      or a list under an inner key is neither iterated nor collected. */
  lemma NestedMappingKeysOnly(key: Atom, inner: seq<(Atom, Yaml)>)
    ensures FlatItems([Dict([(key, Dict(inner))])]) == Ok([key] + Keys(inner))
  {
    var d := Dict([(key, Dict(inner))]);
    assert [d][1..] == [] && d.entries[1..] == [];
    assert FlatEntries(d.entries) == Then(Then(Ok([key]), Ok(Keys(inner))), FlatEntries([]));
    assert [key] + Keys(inner) + [] == [key] + Keys(inner);
  }

  /** A string given as the VALUE of a mapping key is iterated, so the key is
      followed by one reference per character. */
  lemma StringValueSplit(key: Atom, s: string)
    ensures FlatElem(Dict([(key, Scalar(Text(s)))])) == Ok([key] + Chars(s))
  {
    var es := [(key, Scalar(Text(s)))];
    assert es[1..] == [];
    assert FlatEntries(es) == Then(Then(Ok([key]), FlatGen(es[0].1)), FlatEntries([]));
    assert [key] + Chars(s) + [] == [key] + Chars(s);
  }

  /** A null or numeric value of a mapping key is not iterable: the whole
      flattening fails. */
  lemma ScalarValueFails(items: seq<Yaml>, i: nat, k: nat)
    requires i < |items| && items[i].Dict? && k < |items[i].entries|
    requires items[i].entries[k].1.Scalar? && items[i].entries[k].1.atom.Other?
    ensures FlatItems(items).Err?
  {
    assert items == items[..i] + items[i..];
    FlatItemsAppend(items[..i], items[i..]);
    assert items[i..][0] == items[i];
    var es := items[i].entries;
    assert es == es[..k] + es[k..];
    FlatEntriesAppend(es[..k], es[k..]);
    assert es[k..][0] == es[k];
  }

  /** The exception raised for a one-entry mapping element whose value is a
      non-string scalar is that scalar's `TypeError`. */
  lemma ScalarValueError(before: seq<Yaml>, key: Atom, lit: string, after: seq<Yaml>)
    requires FlatItems(before).Ok?
    ensures FlatItems(before + [Dict([(key, Scalar(Other(lit)))])] + after) == Err(NotIterable(lit))
  {
    var d := Dict([(key, Scalar(Other(lit)))]);
    assert [d][1..] == [] && d.entries[1..] == [];
    assert FlatEntries(d.entries) == Then(Then(Ok([key]), FlatGen(Scalar(Other(lit)))), FlatEntries([]));
    FlatItemsAppend(before + [d], after);
    FlatItemsAppend(before, [d]);
  }

  /** A reference listed twice, at any depth, is still one reference. */
  lemma DuplicatesCollapse(items: seq<Yaml>)
    requires FlatItems(items).Ok?
    ensures FlatGen(List(items + items)).Ok?
    ensures RefSet(List(items + items)) == RefSet(List(items))
  {
    FlatItemsAppend(items, items);
  }
}
