/** The destination a container read fills. Sequences (std::vector,
    std::list) grow by push_back; sets (std::set, std::unordered_set) by an
    insert that ignores an element already present. A set's contents are
    kept as a duplicate-free sequence; its storage order is not modelled,
    only its membership. */
module Containers {

  /** How a shape adds one decoded element. */
  datatype Policy = Append | Insert

  /** The contents after adding `x` to `s` under policy `p`. */
  function Place<T(==)>(p: Policy, s: seq<T>, x: T): seq<T>
  {
    match p
    case Append => s + [x]
    case Insert => if x in s then s else s + [x]
  }

  /** The contents after clearing and then adding `xs` one by one, in
      order: never more elements than were added. */
  function Filled<T(==)>(p: Policy, xs: seq<T>): seq<T>
  {
    if xs == [] then [] else Place(p, Filled(p, xs[..|xs| - 1]), xs[|xs| - 1])
  }

  lemma FilledSnoc<T>(p: Policy, xs: seq<T>, x: T)
    ensures Filled(p, xs + [x]) == Place(p, Filled(p, xs), x)
  {
    assert (xs + [x])[..|xs|] == xs;
  }

  /** Clearing and then adding `xs` never leaves more than |xs| elements. */
  lemma {:induction false} FilledLength<T>(p: Policy, xs: seq<T>)
    ensures |Filled(p, xs)| <= |xs|
  {
    if xs != [] {
      FilledLength(p, xs[..|xs| - 1]);
    }
  }

  ghost predicate Distinct<T>(s: seq<T>)
  {
    forall i, j :: 0 <= i < j < |s| ==> s[i] != s[j]
  }

  function Members<T(==)>(s: seq<T>): set<T>
  {
    set x | x in s
  }

  /** std::vector::resize: keep the first `n` elements, or pad with `fill`. */
  function Resized<T>(s: seq<T>, n: nat, fill: T): (r: seq<T>)
    ensures |r| == n
    ensures forall i :: 0 <= i < n && i < |s| ==> r[i] == s[i]
    ensures forall i :: |s| <= i < n ==> r[i] == fill
  {
    if n <= |s| then s[..n] else s + seq(n - |s|, _ => fill)
  }

  /** Appending reproduces the decoded elements exactly, in order. */
  lemma {:induction false} FilledAppend<T>(xs: seq<T>)
    ensures Filled(Append, xs) == xs
  {
    if xs != [] {
      FilledAppend(xs[..|xs| - 1]);
      assert xs[..|xs| - 1] + [xs[|xs| - 1]] == xs;
    }
  }

  /** Inserting into a set keeps it duplicate-free, gives exactly the
      members inserted, and never more elements than were inserted. */
  lemma {:induction false} FilledInsert<T>(xs: seq<T>)
    ensures Distinct(Filled(Insert, xs))
    ensures Members(Filled(Insert, xs)) == Members(xs)
    ensures |Filled(Insert, xs)| <= |xs|
  {
    if xs != [] {
      var init := xs[..|xs| - 1];
      FilledInsert(init);
      assert xs == init + [xs[|xs| - 1]];
      assert Members(xs) == Members(init) + {xs[|xs| - 1]};
    }
  }

  /** Inserting elements that are already distinct keeps every one of them. */
  lemma {:induction false} FilledInsertDistinct<T>(xs: seq<T>)
    requires Distinct(xs)
    ensures |Filled(Insert, xs)| == |xs|
  {
    if xs != [] {
      var init := xs[..|xs| - 1];
      FilledInsertDistinct(init);
      FilledInsert(init);
      assert xs[|xs| - 1] !in Members(init);
    }
  }

  /** A destination container, updated in place by clear() and by the
      shape's insertion operation. */
  class Container<T(==)> {
    const policy: Policy
    var items: seq<T>

    ghost predicate Valid()
      reads this
    {
      policy == Insert ==> Distinct(items)
    }

    constructor (policy: Policy, items: seq<T>)
      requires policy == Insert ==> Distinct(items)
      ensures Valid() && this.policy == policy && this.items == items
    {
      this.policy := policy;
      this.items := items;
    }

    method Clear()
      requires Valid()
      modifies this
      ensures Valid() && items == []
    {
      items := [];
    }

    /** push_back for sequences, insert for sets. */
    method Add(x: T)
      requires Valid()
      modifies this
      ensures Valid() && items == Place(policy, old(items), x)
    {
      if policy == Append || x !in items {
        items := items + [x];
      }
    }

    /** std::vector::resize. */
    method Resize(n: nat, fill: T)
      requires Valid() && policy == Append
      modifies this
      ensures Valid() && items == Resized(old(items), n, fill)
    {
      items := Resized(items, n, fill);
    }

    /** Overwrites every element in place, as a bulk read into the storage does. */
    method Overwrite(xs: seq<T>)
      requires Valid() && policy == Append && |xs| == |items|
      modifies this
      ensures Valid() && items == xs
    {
      items := xs;
    }
  }
}
