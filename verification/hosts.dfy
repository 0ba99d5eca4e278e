/** A lab machine and the ordering the priority queue uses (src/main.rs:20-53).

    Two hosts are "equal" when their loads are, whatever their names, and the
    order is inverted: the host with the LOWER load is the GREATER one, so a
    max-heap hands out the least loaded machine first. */
module Hosts {
  import opened Outcomes

  /** One row of the lab status page, after coercion (src/main.rs:20-27).
      The load is an exact decimal rather than an `f64`. */
  datatype Host = Host(host: string, up: bool, uptime: string, users: nat, load: real)

  datatype Ordering = Less | Equal | Greater

  function Reverse(o: Ordering): (r: Ordering)
    ensures (r == Less <==> o == Greater) && (r == Greater <==> o == Less)
  {
    match o
    case Less => Greater
    case Equal => Equal
    case Greater => Less
  }

  /** `eq`: only the loads are compared (src/main.rs:29-33). */
  predicate Eq(a: Host, b: Host) {
    a.load == b.load
  }

  /** `partial_cmp` (src/main.rs:37-47): always an answer; a higher load
      compares Less. */
  function PartialCmp(a: Host, b: Host): (r: Option<Ordering>)
    ensures r.Some?
    ensures r.value == Equal <==> a.load == b.load
    ensures r.value == Less <==> a.load > b.load
    ensures r.value == Greater <==> a.load < b.load
  {
    if Eq(a, b) then Some(Equal)
    else if a.load > b.load then Some(Less)
    else Some(Greater)
  }

  /** `cmp` (src/main.rs:49-53): `partial_cmp` unwrapped, which never fails. */
  function Cmp(a: Host, b: Host): (o: Ordering)
    ensures o == Equal <==> Eq(a, b)
    ensures o == Greater <==> a.load < b.load
  {
    PartialCmp(a, b).value
  }

  /** `a` is at least as high in the heap as `b`. */
  predicate AtLeast(a: Host, b: Host) {
    Cmp(a, b) != Less
  }

  /** Swapping the arguments reverses the answer. */
  lemma CmpAntisymmetric(a: Host, b: Host)
    ensures Cmp(a, b) == Reverse(Cmp(b, a))
  {
  }

  /** Equality agrees with `eq`, and it is an equivalence. */
  lemma EqEquivalence(a: Host, b: Host, c: Host)
    ensures Eq(a, a)
    ensures Eq(a, b) ==> Eq(b, a)
    ensures Eq(a, b) && Eq(b, c) ==> Eq(a, c)
  {
  }

  /** The heap order is a total preorder: total and transitive. */
  lemma AtLeastTotalPreorder(a: Host, b: Host, c: Host)
    ensures AtLeast(a, b) || AtLeast(b, a)
    ensures AtLeast(a, b) && AtLeast(b, c) ==> AtLeast(a, c)
  {
  }

  /** Higher in the heap means no more loaded. */
  lemma AtLeastMeansLighter(a: Host, b: Host)
    ensures AtLeast(a, b) <==> a.load <= b.load
  {
  }

  /** Only the load counts: giving `a` every other field of `b` changes
      nothing, so different machines with the same load are "equal". */
  lemma EqIgnoresIdentity(a: Host, b: Host)
    ensures Eq(a, b) == Eq(a.(host := b.host, up := b.up, uptime := b.uptime, users := b.users), b)
    ensures a.load == b.load ==> Eq(a, b) && Cmp(a, b) == Equal
  {
  }
}
