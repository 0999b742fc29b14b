/**
 The register list of an SVD peripheral (`collect_registers`, `expand_registers`): registers in nested clusters, both of
 which may be arrays, flattened into single registers with their offsets. The flat list is shown to enumerate the
 index paths through the nest, every one exactly once and in lexicographic order.
 */
module SvdRegisters {
  import opened Prelude

  /** The array part of a register or cluster: the `dim` count, the stride, and how many names `dimIndex` lists if it
      is there. */
  datatype Dim = Single | Repeated(count: int, increment: int, names: Option<nat>)

  /** The children of a `registers` or `cluster` element in document order, other elements left out. */
  datatype Nodes =
    | End
    | Register(id: nat, offset: int, dim: Dim, next: Nodes)
    | Cluster(base: int, dim: Dim, members: Nodes, next: Nodes)

  /** A register element, and the offset it was found at. */
  datatype Found = Found(id: nat, dim: Dim, offset: int)

  /** A single register. */
  datatype Entry = Entry(id: nat, offset: int)

  /** The length of a list of `n` after it is cut off at `count`, which counts from the end when negative. */
  function CutOff(n: nat, count: int): nat {
    if count >= 0 then Min(n, count) else Max(0, n + count)
  }

  /** How many times the element is there. */
  function Copies(dim: Dim): nat {
    match dim
    case Single => 1
    case Repeated(count, _, names) => CutOff(match names { case Some(n) => n case None => Max(0, count) }, count)
  }

  /** There is a copy numbered `i`: the first of an element that is no array; one below the count of an array without
      names; and of one with names, one that has a name and is below the count or, if that is negative, not among as many
      from the end. */
  predicate HasCopy(dim: Dim, i: nat) {
    match dim
    case Single => i == 0
    case Repeated(count, _, None) => i < count
    case Repeated(count, _, Some(n)) => i < n && if count >= 0 then i < count else i < n + count
  }

  lemma CopiesExact(dim: Dim, i: nat)
    ensures i < Copies(dim) <==> HasCopy(dim, i)
  {
  }

  /** How far the `i`-th copy is from the first. */
  function Stride(dim: Dim, i: nat): int {
    match dim
    case Single => 0
    case Repeated(_, increment, _) => i * increment
  }

  // ---------------------------------------------------------------------------------------------
  // The two passes
  // ---------------------------------------------------------------------------------------------

  function Shifted(regs: seq<Found>, delta: int): seq<Found> {
    if regs == [] then [] else [regs[0].(offset := delta + regs[0].offset)] + Shifted(regs[1..], delta)
  }

  /** Copies `from` up to `n` of a cluster's members. */
  function Spread(members: seq<Found>, base: int, dim: Dim, from: nat, n: nat): seq<Found>
    requires from <= n
    decreases n - from
  {
    if from == n then [] else Shifted(members, base + Stride(dim, from)) + Spread(members, base, dim, from + 1, n)
  }

  function Collect(nodes: Nodes): seq<Found> {
    match nodes
    case End => []
    case Register(id, offset, dim, next) => [Found(id, dim, offset)] + Collect(next)
    case Cluster(base, dim, members, next) => Spread(Collect(members), base, dim, 0, Copies(dim)) + Collect(next)
  }

  function Unroll(reg: Found, from: nat, n: nat): seq<Entry>
    requires from <= n
    decreases n - from
  {
    if from == n then [] else [Entry(reg.id, reg.offset + Stride(reg.dim, from))] + Unroll(reg, from + 1, n)
  }

  function Expand(regs: seq<Found>): seq<Entry> {
    if regs == [] then [] else Unroll(regs[0], 0, Copies(regs[0].dim)) + Expand(regs[1..])
  }

  /** The loop over the members of one copy of a cluster. */
  method AppendShifted(out: seq<Found>, members: seq<Found>, delta: int) returns (more: seq<Found>)
    ensures more == out + Shifted(members, delta)
  {
    more := out;
    var j := 0;
    assert members[0..] == members;
    while j < |members|
      invariant 0 <= j <= |members| && more + Shifted(members[j..], delta) == out + Shifted(members, delta)
    {
      assert members[j..][1..] == members[j + 1..];
      more := more + [members[j].(offset := delta + members[j].offset)];
      j := j + 1;
    }
  }

  /** The loop over the copies of a cluster. */
  method AppendCopies(out: seq<Found>, members: seq<Found>, base: int, dim: Dim) returns (more: seq<Found>)
    ensures more == out + Spread(members, base, dim, 0, Copies(dim))
  {
    hide Shifted, Copies, Stride;
    more := out;
    var i, n := 0, Copies(dim);
    while i < n
      invariant 0 <= i <= n
      invariant more + Spread(members, base, dim, i, n) == out + Spread(members, base, dim, 0, n)
    {
      more := AppendShifted(more, members, base + Stride(dim, i));
      i := i + 1;
    }
    assert more + [] == more;
  }

  lemma Regroup(a: seq<Found>, b: seq<Found>, c: seq<Found>)
    ensures (a + b) + c == a + (b + c)
  {
  }

  /** `collect_registers`. */
  method CollectRegisters(nodes: Nodes) returns (out: seq<Found>)
    ensures out == Collect(nodes)
    decreases nodes
  {
    hide Spread, Copies;
    out := [];
    var rest := nodes;
    while rest != End
      invariant out + Collect(rest) == Collect(nodes)
      invariant rest == nodes || rest < nodes
      decreases rest
    {
      match rest {
        case Register(id, offset, dim, next) =>
          Regroup(out, [Found(id, dim, offset)], Collect(next));
          out := out + [Found(id, dim, offset)];
          rest := next;
        case Cluster(base, dim, inner, next) =>
          var members := CollectRegisters(inner);
          Regroup(out, Spread(members, base, dim, 0, Copies(dim)), Collect(next));
          out := AppendCopies(out, members, base, dim);
          rest := next;
      }
    }
  }

  /** The loop over the copies of a register. */
  method AppendUnrolled(out: seq<Entry>, reg: Found) returns (more: seq<Entry>)
    ensures more == out + Unroll(reg, 0, Copies(reg.dim))
  {
    hide Copies, Stride;
    more := out;
    var i, n := 0, Copies(reg.dim);
    while i < n
      invariant 0 <= i <= n && more + Unroll(reg, i, n) == out + Unroll(reg, 0, n)
    {
      more := more + [Entry(reg.id, reg.offset + Stride(reg.dim, i))];
      i := i + 1;
    }
    assert more + [] == more;
  }

  /** `expand_registers`. */
  method ExpandRegisters(regs: seq<Found>) returns (out: seq<Entry>)
    ensures out == Expand(regs)
  {
    hide Unroll, Copies;
    out := [];
    var k := 0;
    assert regs[0..] == regs;
    while k < |regs|
      invariant 0 <= k <= |regs| && out + Expand(regs[k..]) == Expand(regs)
    {
      assert regs[k..][1..] == regs[k + 1..];
      out := AppendUnrolled(out, regs[k]);
      k := k + 1;
    }
  }

  // ---------------------------------------------------------------------------------------------
  // Index paths
  // ---------------------------------------------------------------------------------------------

  /** A way through the nest: past an element, to one copy of a register, or into one copy of a cluster. */
  datatype Path = Past(rest: Path) | Here(copy: nat) | Into(copy: nat, inner: Path)

  predicate Valid(nodes: Nodes, p: Path) {
    match nodes
    case End => false
    case Register(_, _, dim, next) => (p.Here? && HasCopy(dim, p.copy)) || (p.Past? && Valid(next, p.rest))
    case Cluster(_, dim, members, next) =>
      (p.Into? && HasCopy(dim, p.copy) && Valid(members, p.inner)) || (p.Past? && Valid(next, p.rest))
  }

  function Increment(dim: Dim): int {
    match dim
    case Single => 0
    case Repeated(_, increment, _) => increment
  }

  lemma StrideIs(dim: Dim, i: nat)
    ensures Stride(dim, i) == i * Increment(dim)
  {
  }

  /** The register at the end of a path, and its offset: the bases and strides on the way, and its own. */
  function Resolve(nodes: Nodes, p: Path): Entry
    requires Valid(nodes, p)
  {
    match p
    case Past(rest) => Resolve(nodes.next, rest)
    case Here(i) => Entry(nodes.id, nodes.offset + i * Increment(nodes.dim))
    case Into(i, inner) =>
      var e := Resolve(nodes.members, inner);
      Entry(e.id, nodes.base + i * Increment(nodes.dim) + e.offset)
  }

  /** How many single registers there are. */
  function Total(nodes: Nodes): nat {
    match nodes
    case End => 0
    case Register(_, _, dim, next) => Copies(dim) + Total(next)
    case Cluster(_, dim, members, next) => Copies(dim) * Total(members) + Total(next)
  }

  /** How many of the nest's registers a path's register comes after. */
  function Rank(nodes: Nodes, p: Path): nat
    requires Valid(nodes, p)
  {
    match p
    case Past(rest) => Total(nodes) - Total(nodes.next) + Rank(nodes.next, rest)
    case Here(i) => i
    case Into(i, inner) => i * Total(nodes.members) + Rank(nodes.members, inner)
  }

  /** Lexicographic order: document order, then copies in order. */
  predicate Before(p: Path, q: Path) {
    match p
    case Past(rest) => q.Past? && Before(rest, q.rest)
    case Here(i) => q.Past? || (q.Here? && i < q.copy)
    case Into(i, inner) => q.Past? || (q.Into? && (i < q.copy || (i == q.copy && Before(inner, q.inner))))
  }

  // ---------------------------------------------------------------------------------------------
  // The list and the paths
  // ---------------------------------------------------------------------------------------------

  function All(nodes: Nodes): seq<Entry> {
    Expand(Collect(nodes))
  }

  lemma {:induction false} UnrollAt(reg: Found, from: nat, n: nat, i: nat)
    requires from <= n && i < n - from
    ensures |Unroll(reg, from, n)| == n - from
    ensures Unroll(reg, from, n)[i] == Entry(reg.id, reg.offset + Stride(reg.dim, from + i))
    decreases n - from
  {
    hide Stride;
    UnrollLength(reg, from, n);
    if i > 0 {
      UnrollAt(reg, from + 1, n, i - 1);
    }
  }

  lemma {:induction false} UnrollLength(reg: Found, from: nat, n: nat)
    requires from <= n
    ensures |Unroll(reg, from, n)| == n - from
    decreases n - from
  {
    if from < n { UnrollLength(reg, from + 1, n); }
  }

  lemma {:induction false} ExpandConcat(a: seq<Found>, b: seq<Found>)
    ensures Expand(a + b) == Expand(a) + Expand(b)
  {
    hide Unroll, Copies;
    if a == [] {
      assert a + b == b;
    } else {
      assert (a + b)[1..] == a[1..] + b;
      ExpandConcat(a[1..], b);
    }
  }

  /** The same registers, further on. */
  predicate Moved(es: seq<Entry>, fs: seq<Entry>, delta: int) {
    |es| == |fs| && forall i :: 0 <= i < |es| ==> fs[i] == Entry(es[i].id, delta + es[i].offset)
  }

  lemma {:induction false} UnrollMoved(reg: Found, delta: int, from: nat, n: nat)
    requires from <= n
    ensures Moved(Unroll(reg, from, n), Unroll(reg.(offset := delta + reg.offset), from, n), delta)
    decreases n - from
  {
    hide Stride;
    if from < n { UnrollMoved(reg, delta, from + 1, n); }
  }

  lemma MovedConcat(a: seq<Entry>, b: seq<Entry>, a': seq<Entry>, b': seq<Entry>, delta: int)
    requires Moved(a, a', delta) && Moved(b, b', delta)
    ensures Moved(a + b, a' + b', delta)
  {
  }

  lemma {:induction false} ExpandMoved(regs: seq<Found>, delta: int)
    ensures Moved(Expand(regs), Expand(Shifted(regs, delta)), delta)
  {
    hide Unroll, Copies, Moved;
    if regs == [] {
      NothingMoved(delta);
    } else {
      var first := regs[0].(offset := delta + regs[0].offset);
      ExpandMoved(regs[1..], delta);
      UnrollMoved(regs[0], delta, 0, Copies(regs[0].dim));
      assert Shifted(regs, delta)[1..] == Shifted(regs[1..], delta);
      MovedConcat(Unroll(regs[0], 0, Copies(regs[0].dim)), Expand(regs[1..]),
                  Unroll(first, 0, Copies(first.dim)), Expand(Shifted(regs[1..], delta)), delta);
    }
  }

  lemma NothingMoved(delta: int)
    ensures Moved([], [], delta)
  {
  }

  lemma {:induction false} SpreadLength(members: seq<Found>, base: int, dim: Dim, from: nat, n: nat)
    requires from <= n
    ensures |Expand(Spread(members, base, dim, from, n))| == (n - from) * |Expand(members)|
    decreases n - from
  {
    hide Expand, Shifted, Stride;
    if from < n {
      var first := Shifted(members, base + Stride(dim, from));
      var rest := Spread(members, base, dim, from + 1, n);
      SpreadLength(members, base, dim, from + 1, n);
      ExpandConcat(first, rest);
      ExpandMoved(members, base + Stride(dim, from));
      OneMore(n - from - 1, |Expand(members)|, n - from);
    } else {
      ExpandNothing();
    }
  }

  lemma ExpandNothing()
    ensures Expand([]) == []
  {
  }

  lemma OneMore(n: nat, m: nat, k: nat)
    requires k == n + 1
    ensures n * m + m == k * m
  {
  }

  /** The `r`-th register of copy `i` of a cluster. */
  lemma {:induction false} SpreadAt(members: seq<Found>, base: int, dim: Dim, from: nat, n: nat, i: nat, r: nat, at: nat)
    requires from <= i < n && r < |Expand(members)| && at == (i - from) * |Expand(members)| + r
    ensures at < |Expand(Spread(members, base, dim, from, n))|
    ensures Expand(Spread(members, base, dim, from, n))[at]
         == Entry(Expand(members)[r].id, base + Stride(dim, i) + Expand(members)[r].offset)
    decreases n - from
  {
    hide Expand, Shifted, Stride, Moved;
    var first := Shifted(members, base + Stride(dim, from));
    var rest := Spread(members, base, dim, from + 1, n);
    ExpandConcat(first, rest);
    ExpandMoved(members, base + Stride(dim, from));
    MovedAt(Expand(members), Expand(first), base + Stride(dim, from), r);
    if i == from {
      assert at == r;
    } else {
      OneMore(i - from - 1, |Expand(members)|, i - from);
      SpreadAt(members, base, dim, from + 1, n, i, r, at - |Expand(members)|);
      SecondPart(Expand(first), Expand(rest), at);
    }
  }

  lemma MovedAt(es: seq<Entry>, fs: seq<Entry>, delta: int, r: nat)
    requires Moved(es, fs, delta) && r < |es|
    ensures |fs| == |es| && fs[r] == Entry(es[r].id, delta + es[r].offset)
  {
  }

  lemma SecondPart(a: seq<Entry>, b: seq<Entry>, at: nat)
    requires |a| <= at < |a| + |b|
    ensures (a + b)[at] == b[at - |a|]
  {
  }

  lemma {:induction false} TotalIsLength(nodes: Nodes)
    ensures |All(nodes)| == Total(nodes)
  {
    match nodes
    case End =>
    case Register(id, offset, dim, next) =>
      TotalIsLength(next);
      AllRegister(id, offset, dim, next);
      UnrollLength(Found(id, dim, offset), 0, Copies(dim));
    case Cluster(base, dim, members, next) =>
      TotalIsLength(members);
      TotalIsLength(next);
      AllCluster(base, dim, members, next);
      SpreadLength(Collect(members), base, dim, 0, Copies(dim));
  }

  lemma AllRegister(id: nat, offset: int, dim: Dim, next: Nodes)
    ensures All(Register(id, offset, dim, next)) == Unroll(Found(id, dim, offset), 0, Copies(dim)) + All(next)
  {
    hide Unroll, Copies;
    var regs := [Found(id, dim, offset)] + Collect(next);
    assert regs[1..] == Collect(next);
  }

  lemma AllCluster(base: int, dim: Dim, members: Nodes, next: Nodes)
    ensures All(Cluster(base, dim, members, next))
         == Expand(Spread(Collect(members), base, dim, 0, Copies(dim))) + All(next)
  {
    hide Expand, Spread;
    ExpandConcat(Spread(Collect(members), base, dim, 0, Copies(dim)), Collect(next));
  }

  /** The part of the list after the first element's registers. */
  lemma AllPast(nodes: Nodes, r: nat)
    requires nodes != End && r < Total(nodes.next)
    ensures Total(nodes) - Total(nodes.next) + r < |All(nodes)| && r < |All(nodes.next)|
    ensures All(nodes)[Total(nodes) - Total(nodes.next) + r] == All(nodes.next)[r]
  {
    hide *;
    TotalIsLength(nodes);
    TotalIsLength(nodes.next);
    match nodes
    case Register(id, offset, dim, next) =>
      AllRegister(id, offset, dim, next);
    case Cluster(base, dim, members, next) =>
      AllCluster(base, dim, members, next);
  }

  lemma AllHere(nodes: Nodes, i: nat)
    requires nodes.Register? && i < Copies(nodes.dim)
    ensures i < |All(nodes)| && All(nodes)[i] == Entry(nodes.id, nodes.offset + Stride(nodes.dim, i))
  {
    hide *;
    var reg := Found(nodes.id, nodes.dim, nodes.offset);
    AllRegister(nodes.id, nodes.offset, nodes.dim, nodes.next);
    UnrollAt(reg, 0, Copies(nodes.dim), i);
  }

  lemma AllInto(nodes: Nodes, i: nat, r: nat, at: nat)
    requires nodes.Cluster? && i < Copies(nodes.dim) && r < Total(nodes.members)
    requires at == i * Total(nodes.members) + r
    ensures at < |All(nodes)| && r < |All(nodes.members)|
    ensures All(nodes)[at] == Entry(All(nodes.members)[r].id, nodes.base + Stride(nodes.dim, i) + All(nodes.members)[r].offset)
  {
    TotalIsLength(nodes.members);
    AllCluster(nodes.base, nodes.dim, nodes.members, nodes.next);
    hide Spread, Copies, Stride, Collect, Expand, Total;
    SpreadAt(Collect(nodes.members), nodes.base, nodes.dim, 0, Copies(nodes.dim), i, r, at);
  }

  /** The flat list has, at the rank of every index path, the register that the path leads to. */
  lemma {:induction false} PathIsListed(nodes: Nodes, p: Path)
    requires Valid(nodes, p)
    ensures Rank(nodes, p) < |All(nodes)| && All(nodes)[Rank(nodes, p)] == Resolve(nodes, p)
    decreases p
  {
    hide Copies, Stride, Total, All;
    match p
    case Here(i) =>
      CopiesExact(nodes.dim, i);
      StrideIs(nodes.dim, i);
      AllHere(nodes, i);
    case Past(rest) =>
      PathIsListed(nodes.next, rest);
      TotalIsLength(nodes.next);
      AllPast(nodes, Rank(nodes.next, rest));
    case Into(i, inner) =>
      CopiesExact(nodes.dim, i);
      StrideIs(nodes.dim, i);
      PathIsListed(nodes.members, inner);
      TotalIsLength(nodes.members);
      AllInto(nodes, i, Rank(nodes.members, inner), Rank(nodes, p));
  }

  lemma RankBelow(nodes: Nodes, p: Path)
    requires Valid(nodes, p)
    ensures Rank(nodes, p) < Total(nodes)
  {
    PathIsListed(nodes, p);
    TotalIsLength(nodes);
  }

  lemma CopyBelow(i: nat, r: nat, t: nat, n: nat)
    requires i < n && r < t
    ensures i * t + r < n * t
  {
    OneMore(i, t, i + 1);
    Multiply(i + 1, n, t);
  }

  lemma Multiply(a: nat, b: nat, t: nat)
    requires a <= b
    ensures a * t <= b * t
  {
  }

  /** Paths are ranked in lexicographic order. */
  lemma {:induction false} RankFollowsOrder(nodes: Nodes, p: Path, q: Path)
    requires Valid(nodes, p) && Valid(nodes, q) && Before(p, q)
    ensures Rank(nodes, p) < Rank(nodes, q)
    decreases p
  {
    match p
    case Past(rest) => RankFollowsOrder(nodes.next, rest, q.rest);
    case Here(i) =>
    case Into(i, inner) =>
      var t := Total(nodes.members);
      RankBelow(nodes.members, inner);
      if q.Past? {
        CopyBelow(i, Rank(nodes.members, inner), t, Copies(nodes.dim));
      } else if i < q.copy {
        CopyBelow(i, Rank(nodes.members, inner), t, q.copy);
      } else {
        RankFollowsOrder(nodes.members, inner, q.inner);
      }
  }

  lemma {:induction false} Comparable(nodes: Nodes, p: Path, q: Path)
    requires Valid(nodes, p) && Valid(nodes, q)
    ensures p == q || Before(p, q) || Before(q, p)
    decreases p
  {
    hide Copies;
    match p
    case Past(rest) => if q.Past? { Comparable(nodes.next, rest, q.rest); }
    case Here(i) =>
    case Into(i, inner) => if q.Into? { Comparable(nodes.members, inner, q.inner); }
  }

  lemma {:induction false} Quotient(r: nat, t: nat, n: nat) returns (i: nat, s: nat)
    requires r < n * t
    ensures i < n && s < t && r == i * t + s
    decreases n
  {
    OneMore(n - 1, t, n);
    if r >= (n - 1) * t {
      i, s := n - 1, r - (n - 1) * t;
    } else {
      i, s := Quotient(r, t, n - 1);
    }
  }

  /** Every place in the list is the rank of a path. */
  lemma {:induction false} PathAt(nodes: Nodes, r: nat) returns (p: Path)
    requires r < Total(nodes)
    ensures Valid(nodes, p) && Rank(nodes, p) == r
    decreases nodes
  {
    hide Copies;
    var first := Total(nodes) - Total(nodes.next);
    if r >= first {
      var rest := PathAt(nodes.next, r - first);
      p := Past(rest);
    } else if nodes.Register? {
      CopiesExact(nodes.dim, r);
      p := Here(r);
    } else {
      var i, s := Quotient(r, Total(nodes.members), Copies(nodes.dim));
      CopiesExact(nodes.dim, i);
      var inner := PathAt(nodes.members, s);
      p := Into(i, inner);
    }
  }

  /** Some path has rank `r`. */
  ghost predicate Ranked(nodes: Nodes, r: nat) {
    exists p :: Valid(nodes, p) && Rank(nodes, p) == r
  }

  lemma SomePathAt(nodes: Nodes, r: nat)
    requires r < Total(nodes)
    ensures Ranked(nodes, r)
  {
    hide Valid, Rank;
    var p := PathAt(nodes, r);
  }

  /** The flat list enumerates the index paths: as long as there are paths, each place the register of one path, and the
      places in the order of the paths. */
  lemma ListEnumeratesPaths(nodes: Nodes)
    ensures forall p :: Valid(nodes, p) ==>
              Rank(nodes, p) < |All(nodes)| && All(nodes)[Rank(nodes, p)] == Resolve(nodes, p)
    ensures forall r :: 0 <= r < |All(nodes)| ==> Ranked(nodes, r)
    ensures forall p, q :: Valid(nodes, p) && Valid(nodes, q) ==> (Before(p, q) <==> Rank(nodes, p) < Rank(nodes, q))
  {
    hide *;
    forall p | Valid(nodes, p)
      ensures Rank(nodes, p) < |All(nodes)| && All(nodes)[Rank(nodes, p)] == Resolve(nodes, p)
    {
      PathIsListed(nodes, p);
    }
    TotalIsLength(nodes);
    forall r | 0 <= r < |All(nodes)| ensures Ranked(nodes, r) {
      SomePathAt(nodes, r);
    }
    forall p, q | Valid(nodes, p) && Valid(nodes, q) ensures Before(p, q) <==> Rank(nodes, p) < Rank(nodes, q) {
      Comparable(nodes, p, q);
      if Before(p, q) { RankFollowsOrder(nodes, p, q); }
      if Before(q, p) { RankFollowsOrder(nodes, q, p); }
    }
  }

  // ---------------------------------------------------------------------------------------------
  // Elements that are no arrays
  // ---------------------------------------------------------------------------------------------

  /** A register that is no array is listed once, at its own offset, */
  lemma PlainRegister(id: nat, offset: int, next: Nodes)
    ensures All(Register(id, offset, Single, next)) == [Entry(id, offset)] + All(next)
  {
    AllRegister(id, offset, Single, next);
    var reg := Found(id, Single, offset);
    assert Unroll(reg, 0, 1) == [Entry(id, offset)] + Unroll(reg, 1, 1);
  }

  /** and the registers of a cluster that is none are listed once each, moved by its base. */
  lemma PlainCluster(base: int, members: Nodes, next: Nodes)
    ensures var inner, all := All(members), All(Cluster(base, Single, members, next));
            && |all| == |inner| + |All(next)| && all[|inner|..] == All(next) && Moved(inner, all[..|inner|], base)
  {
    AllCluster(base, Single, members, next);
    var regs, once := Collect(members), Shifted(Collect(members), base);
    assert Spread(regs, base, Single, 1, 1) == [] && once + [] == once;
    assert Spread(regs, base, Single, 0, 1) == once;
    hide Collect, Shifted, Expand, Spread;
    ExpandMoved(regs, base);
  }
}
