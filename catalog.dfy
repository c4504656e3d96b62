/**
 * The nested message container of one language and the walk that a dotted
 * key makes through it: the `reduce` with optional chaining in
 * `Language.getMessage`.
 */
module Catalog {
  import opened Wrappers

  /**
   * An entry of a message container: a literal message, a builder that renders
   * a message from the caller's parameter record (of type `P`), or a nested
   * container keyed by key segment (only its own keys).
   */
  datatype Node<!P> =
    | Literal(text: string)
    | Builder(build: P -> string)
    | Container(entries: map<string, Node<P>>)

  /**
   * One step of the walk, `messageObject?.[keyPart]`: it finds a node exactly
   * when `current` is a container with an own entry named `segment`, and then
   * it is that entry; undefined stays undefined, and stepping into a literal
   * or a builder finds nothing.
   */
  function Step<P>(current: Option<Node<P>>, segment: string): (r: Option<Node<P>>)
    ensures r.Some? <==> current.Some? && current.value.Container?
                         && segment in current.value.entries
    ensures r.Some? ==> r.value == current.value.entries[segment]
  {
    match current
    case Some(Container(entries)) =>
      if segment in entries then Some(entries[segment]) else None
    case _ => None
  }

  /**
   * The left fold of `Step` over the key segments, starting from `current`.
   * Once the walk is undefined it stays undefined, whatever segments follow.
   */
  function Walk<P>(current: Option<Node<P>>, segments: seq<string>): (r: Option<Node<P>>)
    ensures current.None? ==> r.None?
    decreases |segments|
  {
    if segments == [] then current else Walk(Step(current, segments[0]), segments[1..])
  }

  /** The `k`-th segment is an own entry of the node the first `k` segments reach. */
  predicate Descends<P>(root: Node<P>, segments: seq<string>, k: nat)
    requires k < |segments|
  {
    Step(Walk(Some(root), segments[..k]), segments[k]).Some?
  }

  /** Walking `a + b` is walking `a` and then walking `b` from where `a` stopped. */
  lemma {:induction false} WalkAppend<P>(current: Option<Node<P>>, a: seq<string>, b: seq<string>)
    ensures Walk(current, a + b) == Walk(Walk(current, a), b)
    decreases |a|
  {
    if a == [] {
      assert a + b == b;
    } else {
      assert (a + b)[0] == a[0];
      assert (a + b)[1..] == a[1..] + b;
      WalkAppend(Step(current, a[0]), a[1..], b);
    }
  }

  /** The last step of the walk: the reduce applies `Step` to each segment in turn. */
  lemma WalkLast<P>(current: Option<Node<P>>, segments: seq<string>)
    requires segments != []
    ensures Walk(current, segments)
         == Step(Walk(current, segments[..|segments| - 1]), segments[|segments| - 1])
  {
    var n := |segments| - 1;
    assert segments[..n] + [segments[n]] == segments;
    WalkAppend(current, segments[..n], [segments[n]]);
  }

  /**
   * The walk reaches a node exactly when every segment is an own entry of the
   * container reached by the segments before it.
   */
  lemma {:induction false} WalkDefinedIff<P>(root: Node<P>, segments: seq<string>)
    ensures Walk(Some(root), segments).Some?
        <==> forall k :: 0 <= k < |segments| ==> Descends(root, segments, k)
    decreases |segments|
  {
    if segments != [] {
      var n := |segments| - 1;
      var init := segments[..n];
      var reached := Walk(Some(root), init);
      WalkLast(Some(root), segments);
      assert Descends(root, segments, n) == Step(reached, segments[n]).Some?;
      WalkDefinedIff(root, init);
      forall k | 0 <= k < n
        ensures Descends(root, segments, k) == Descends(root, init, k)
      {
        assert segments[..k] == init[..k];
      }
    }
  }

  /**
   * If segment `k` is missing, the walk is undefined after it, for every
   * longer prefix up to the whole key.
   */
  lemma WalkStaysUndefined<P>(root: Node<P>, segments: seq<string>, k: nat)
    requires k < |segments|
    requires !Descends(root, segments, k)
    ensures forall j :: k < j <= |segments| ==> Walk(Some(root), segments[..j]).None?
  {
    forall j | k < j <= |segments|
      ensures Walk(Some(root), segments[..j]).None?
    {
      PrefixUndefined(root, segments, k, j);
    }
  }

  lemma PrefixUndefined<P>(root: Node<P>, segments: seq<string>, k: nat, j: nat)
    requires k < j <= |segments|
    requires !Descends(root, segments, k)
    ensures Walk(Some(root), segments[..j]).None?
  {
    var head, tail := segments[..k + 1], segments[k + 1..j];
    assert head + tail == segments[..j];
    WalkAppend(Some(root), head, tail);
    WalkLast(Some(root), head);
    assert head[..k] == segments[..k];
    assert Step(Walk(Some(root), segments[..k]), segments[k]).None?;
  }
}
