/** Header maps, and the merge of `replace_headers` in `cyper/src/util.rs`. */
module HeaderMaps {
  import opened Prelude

  /** Every name present has at least one value; names are lower-case. */
  type Headers = m: map<string, seq<string>> | forall k :: k in m ==> m[k] != [] witness map[]

  /** What consuming a header map yields: the name comes with the first of its values only. */
  datatype Item = Item(name: Option<string>, value: string)

  function LaterItems(values: seq<string>): seq<Item> {
    if values == [] then [] else [Item(None, values[0])] + LaterItems(values[1..])
  }

  function IntoIter(order: seq<string>, m: Headers): seq<Item>
    requires forall i :: 0 <= i < |order| ==> order[i] in m
  {
    if order == [] then []
    else
      var values := m[order[0]];
      [Item(Some(order[0]), values[0])] + LaterItems(values[1..]) + IntoIter(order[1..], m)
  }

  /** The names of the map in some order, each once. */
  ghost predicate Enumerates(order: seq<string>, m: Headers) {
    && (forall i, j :: 0 <= i < j < |order| ==> order[i] != order[j])
    && (forall k :: k in order <==> k in m)
  }

  class HeaderMap {
    var fields: Headers

    constructor (fields: Headers)
      ensures this.fields == fields
    {
      this.fields := fields;
    }

    /** Sets the only value of a name. */
    method Insert(name: string, value: string)
      modifies this
      ensures fields == old(fields)[name := [value]]
    {
      fields := fields[name := [value]];
    }

    /** Adds a value to a name that has one. */
    method Append(name: string, value: string)
      requires name in fields
      modifies this
      ensures fields == old(fields)[name := old(fields)[name] + [value]]
    {
      fields := fields[name := fields[name] + [value]];
    }

    /** Takes out a name with all its values. */
    method Remove(name: string)
      modifies this
      ensures fields == old(fields) - {name}
    {
      fields := fields - {name};
    }
  }

  /** The state after the given items, when the last name seen was `prev`. */
  function Replayed(d: map<string, seq<string>>, items: seq<Item>, prev: Option<string>): map<string, seq<string>>
    decreases |items|
  {
    if items == [] then d
    else
      var item := items[0];
      match item.name
      case Some(name) => Replayed(d[name := [item.value]], items[1..], Some(name))
      case None =>
        if prev.Some? && prev.value in d
        then Replayed(d[prev.value := d[prev.value] + [item.value]], items[1..], prev)
        else d
  }

  lemma ReplayedStep(d: map<string, seq<string>>, items: seq<Item>, prev: Option<string>)
    requires items != []
    ensures var item := items[0];
            Replayed(d, items, prev) == match item.name
              case Some(name) => Replayed(d[name := [item.value]], items[1..], Some(name))
              case None =>
                if prev.Some? && prev.value in d
                then Replayed(d[prev.value := d[prev.value] + [item.value]], items[1..], prev)
                else d
  {
  }

  lemma ReplayedEnd(d: map<string, seq<string>>, items: seq<Item>, prev: Option<string>)
    requires items == []
    ensures Replayed(d, items, prev) == d
  {
  }

  lemma {:induction false} LaterItemsReplayed(d: map<string, seq<string>>, name: string, values: seq<string>, rest: seq<Item>)
    requires name in d
    ensures Replayed(d, LaterItems(values) + rest, Some(name)) == Replayed(d[name := d[name] + values], rest, Some(name))
  {
    if values == [] {
      assert LaterItems(values) + rest == rest;
      assert d[name] + values == d[name];
      assert d[name := d[name] + values] == d;
    } else {
      var items := LaterItems(values) + rest;
      var d' := d[name := d[name] + [values[0]]];
      assert items[0] == Item(None, values[0]) && items[1..] == LaterItems(values[1..]) + rest;
      LaterItemsReplayed(d', name, values[1..], rest);
      assert d'[name] + values[1..] == d[name] + values;
      assert d'[name := d'[name] + values[1..]] == d[name := d[name] + values];
    }
  }

  function Selected(m: Headers, names: seq<string>): map<string, seq<string>>
    requires forall i :: 0 <= i < |names| ==> names[i] in m
  {
    map k | k in names :: m[k]
  }

  lemma SelectedFirst(d: map<string, seq<string>>, m: Headers, names: seq<string>)
    requires names != [] && forall i :: 0 <= i < |names| ==> names[i] in m
    ensures d[names[0] := m[names[0]]] + Selected(m, names[1..]) == d + Selected(m, names)
  {
    assert names == [names[0]] + names[1..];
    assert forall k :: k in names <==> k == names[0] || k in names[1..];
  }

  /** Replaying the items of some names gives each of them all its values in order and leaves the other names alone. */
  lemma {:induction false} IterReplayed(d: map<string, seq<string>>, order: seq<string>, m: Headers, prev: Option<string>)
    requires forall i :: 0 <= i < |order| ==> order[i] in m
    ensures Replayed(d, IntoIter(order, m), prev) == d + Selected(m, order)
    decreases |order|
  {
    if order == [] {
      assert d + Selected(m, order) == d;
    } else {
      hide Selected;
      var name, values := order[0], m[order[0]];
      var rest := IntoIter(order[1..], m);
      var items := IntoIter(order, m);
      assert items[0] == Item(Some(name), values[0]) && items[1..] == LaterItems(values[1..]) + rest;
      LaterItemsReplayed(d[name := [values[0]]], name, values[1..], rest);
      assert [values[0]] + values[1..] == values;
      assert d[name := [values[0]]][name := values] == d[name := values];
      IterReplayed(d[name := values], order[1..], m, Some(name));
      SelectedFirst(d, m, order);
    }
  }

  lemma AllSelected(order: seq<string>, m: Headers)
    requires Enumerates(order, m)
    ensures forall i :: 0 <= i < |order| ==> order[i] in m
    ensures Selected(m, order) == m
  {
  }

  lemma FirstItemNamed(order: seq<string>, m: Headers)
    requires forall i :: 0 <= i < |order| ==> order[i] in m
    ensures IntoIter(order, m) != [] ==> IntoIter(order, m)[0].name.Some?
  {
  }

  /**
    Merges the source into the destination: every name of the source has exactly the source's values afterwards, every
    other name what it had. The item without a name never comes first.
  */
  method ReplaceHeaders(dst: HeaderMap, src: seq<Item>, ghost order: seq<string>, ghost m: Headers)
    requires Enumerates(order, m) && src == IntoIter(order, m)
    modifies dst
    ensures dst.fields == old(dst.fields) + m
  {
    hide Replayed, IntoIter, Enumerates;
    ghost var before: map<string, seq<string>> := dst.fields;
    var prev: Option<string> := None;
    AllSelected(order, m);
    FirstItemNamed(order, m);
    for i := 0 to |src|
      invariant Replayed(dst.fields, src[i..], prev) == Replayed(before, src, None)
      invariant prev.Some? ==> prev.value in dst.fields
      invariant i > 0 ==> prev.Some?
    {
      assert src[i..][1..] == src[i + 1..];
      ReplayedStep(dst.fields, src[i..], prev);
      var item := src[i];
      match item.name {
        case Some(name) =>
          dst.Insert(name, item.value);
          prev := Some(name);
        case None =>
          dst.Append(prev.value, item.value);
      }
    }
    ReplayedEnd(dst.fields, src[|src|..], prev);
    IterReplayed(before, order, m, None);
    AllSelected(order, m);
  }
}
