/**
 The devicetree structure block at token level: the stack machine that `validate_dtb` runs, the tree that a
 block stands for, and the proof that accepted blocks and legal trees are the same thing.
 */
module FdtTree {
  import opened Prelude
  import PosixPath

  /** Structure-block tokens other than FDT_END (section 5.4.1 of the Devicetree Specification v0.4). */
  datatype Token = BeginNode(name: string) | EndNode | Prop(name: string, value: seq<Byte>) | Nop

  type Props = map<string, seq<Byte>>
  type NodeTable = map<string, Props>

  datatype Fault =
    | Truncated | BadHeader | BlockRanges | Reservations
    | WordRange | StringOffset | MissingTerminator | StringEncoding
    | NodeName | DuplicateNode | Unbalanced | PropertyRange | Trailing | UnknownToken | MissingEnd

  /** What the walk carries from token to token: the `nodes` dictionary and the `stack` of open paths. */
  datatype State = State(nodes: NodeTable, stack: seq<string>) {
    ghost predicate Valid() {
      forall p :: p in stack ==> p in nodes
    }
    function Top(): string {
      if stack == [] then "" else stack[|stack| - 1]
    }
  }

  const INITIAL := State(map[], [])

  /** `str.rstrip('/')`. */
  function RStrip(path: string): string {
    if path != "" && path[|path| - 1] == '/' then RStrip(path[..|path| - 1]) else path
  }

  function ChildPath(parent: string, name: string): string {
    RStrip(parent) + "/" + name
  }

  /** One turn of the loop for a token other than FDT_END. */
  function Step(st: State, tok: Token): (r: Result<State, Fault>)
    requires st.Valid()
    ensures r.Ok? ==> r.value.Valid()
    ensures r.Ok? ==> |r.value.stack| == |st.stack| + (if tok.BeginNode? then 1 else if tok.EndNode? then -1 else 0)
  {
    match tok
    case BeginNode(name) =>
      if '/' in name || (st.stack == [] && (name != "" || st.nodes != map[])) then Err(NodeName)
      else
        var path := ChildPath(st.Top(), name);
        if path in st.nodes then Err(DuplicateNode)
        else Ok(State(st.nodes[path := map[]], st.stack + [path]))
    case EndNode =>
      if st.stack == [] then Err(Unbalanced)
      else Ok(State(st.nodes, st.stack[..|st.stack| - 1]))
    case Prop(name, value) =>
      if st.stack == [] || name in st.nodes[st.Top()] then Err(PropertyRange)
      else Ok(State(st.nodes[st.Top() := st.nodes[st.Top()][name := value]], st.stack))
    case Nop => Ok(st)
  }

  function Run(st: State, ts: seq<Token>): (r: Result<State, Fault>)
    requires st.Valid()
    ensures r.Ok? ==> r.value.Valid()
    decreases |ts|
  {
    if ts == [] then Ok(st)
    else
      var next := Step(st, ts[0]);
      if next.Err? then next else Run(next.value, ts[1..])
  }

  lemma {:induction false} RunConcat(st: State, a: seq<Token>, b: seq<Token>)
    requires st.Valid()
    ensures Run(st, a + b) == if Run(st, a).Err? then Run(st, a) else Run(Run(st, a).value, b)
    decreases |a|
  {
    if a == [] {
      assert a + b == b;
    } else {
      assert (a + b)[1..] == a[1..] + b;
      if Step(st, a[0]).Ok? { RunConcat(Step(st, a[0]).value, a[1..], b); }
    }
  }

  // ---------------------------------------------------------------------------------------------
  // Trees
  // ---------------------------------------------------------------------------------------------

  /** The contents of a node, in block order: properties, NOPs and child nodes. The specification asks for all
      properties before the first child; the walk does not, so neither does this type. */
  datatype Body =
    | Done
    | Property(name: string, value: seq<Byte>, rest: Body)
    | Filler(rest: Body)
    | Child(name: string, body: Body, rest: Body)

  function Flatten(b: Body): seq<Token> {
    match b
    case Done => []
    case Property(name, value, rest) => [Prop(name, value)] + Flatten(rest)
    case Filler(rest) => [Nop] + Flatten(rest)
    case Child(name, body, rest) => [BeginNode(name)] + Flatten(body) + [EndNode] + Flatten(rest)
  }

  function Nops(n: nat): (ts: seq<Token>)
    ensures |ts| == n && forall i :: 0 <= i < n ==> ts[i] == Nop
  {
    seq(n, _ => Nop)
  }

  /** A whole block without its FDT_END: one root, whose name is empty, with NOPs around it. */
  function FlattenBlock(before: nat, root: Body, after: nat): seq<Token> {
    Nops(before) + [BeginNode("")] + Flatten(root) + [EndNode] + Nops(after)
  }

  /** The properties of the node whose contents are `b`: those directly in it, not its descendants'. */
  function OwnProps(b: Body): Props {
    match b
    case Done => map[]
    case Property(name, value, rest) => map[name := value] + OwnProps(rest)
    case Filler(rest) => OwnProps(rest)
    case Child(_, _, rest) => OwnProps(rest)
  }

  function OwnPropNames(b: Body): seq<string> {
    match b
    case Done => []
    case Property(name, _, rest) => [name] + OwnPropNames(rest)
    case Filler(rest) => OwnPropNames(rest)
    case Child(_, _, rest) => OwnPropNames(rest)
  }

  /** Every node below `parent`, under its full path, with its own properties. */
  function Below(b: Body, parent: string): NodeTable {
    match b
    case Done => map[]
    case Property(_, _, rest) => Below(rest, parent)
    case Filler(rest) => Below(rest, parent)
    case Child(name, body, rest) =>
      var path := ChildPath(parent, name);
      map[path := OwnProps(body)] + Below(body, path) + Below(rest, parent)
  }

  /** The paths of those nodes in document order, repetitions included. */
  function Paths(b: Body, parent: string): seq<string> {
    match b
    case Done => []
    case Property(_, _, rest) => Paths(rest, parent)
    case Filler(rest) => Paths(rest, parent)
    case Child(name, body, rest) =>
      var path := ChildPath(parent, name);
      [path] + Paths(body, path) + Paths(rest, parent)
  }

  function TreeTable(root: Body): NodeTable {
    map["/" := OwnProps(root)] + Below(root, "/")
  }

  /** Node names hold no slash and no node, here or further down, repeats a property. */
  ghost predicate Clean(b: Body) {
    match b
    case Done => true
    case Property(_, _, rest) => Clean(rest)
    case Filler(rest) => Clean(rest)
    case Child(name, body, rest) => '/' !in name && Distinct(OwnPropNames(body)) && Clean(body) && Clean(rest)
  }

  /** What the walk demands of a tree. */
  ghost predicate Acceptable(root: Body) {
    Clean(root) && Distinct(OwnPropNames(root)) && Distinct(["/"] + Paths(root, "/"))
  }

  lemma {:induction false} BelowKeys(b: Body, parent: string)
    ensures Below(b, parent).Keys == Elements(Paths(b, parent))
  {
    match b
    case Done =>
    case Property(_, _, rest) => BelowKeys(rest, parent);
    case Filler(rest) => BelowKeys(rest, parent);
    case Child(name, body, rest) =>
      BelowKeys(body, ChildPath(parent, name));
      BelowKeys(rest, parent);
  }

  lemma {:induction false} OwnPropsKeys(b: Body)
    ensures OwnProps(b).Keys == Elements(OwnPropNames(b))
  {
    match b
    case Done =>
    case Property(_, _, rest) => OwnPropsKeys(rest);
    case Filler(rest) => OwnPropsKeys(rest);
    case Child(_, _, rest) => OwnPropsKeys(rest);
  }

  // ---------------------------------------------------------------------------------------------
  // The walk over the flattening of a tree
  // ---------------------------------------------------------------------------------------------

  /** `b` can be appended to a node at `parent` when the paths `used` and the property names `taken` are spoken for. */
  ghost predicate Fits(b: Body, parent: string, used: set<string>, taken: set<string>) {
    match b
    case Done => true
    case Property(name, _, rest) => name !in taken && Fits(rest, parent, used, taken + {name})
    case Filler(rest) => Fits(rest, parent, used, taken)
    case Child(name, body, rest) =>
      var path := ChildPath(parent, name);
      && '/' !in name
      && path !in used
      && Fits(body, path, used + {path}, {})
      && Fits(rest, parent, used + {path} + Elements(Paths(body, path)), taken)
  }

  lemma {:induction false} FitsMeans(b: Body, parent: string, used: set<string>, taken: set<string>)
    ensures Fits(b, parent, used, taken) <==>
      && Clean(b)
      && Distinct(Paths(b, parent)) && Elements(Paths(b, parent)) !! used
      && Distinct(OwnPropNames(b)) && Elements(OwnPropNames(b)) !! taken
  {
    match b
    case Done =>
    case Property(name, _, rest) =>
      FitsMeans(rest, parent, used, taken + {name});
      DistinctConcat([name], OwnPropNames(rest));
      assert Elements([name]) == {name};
      assert Elements(OwnPropNames(b)) == {name} + Elements(OwnPropNames(rest));
    case Filler(rest) =>
      FitsMeans(rest, parent, used, taken);
    case Child(name, body, rest) =>
      var path := ChildPath(parent, name);
      var inner, outer := Paths(body, path), Paths(rest, parent);
      FitsMeans(body, path, used + {path}, {});
      FitsMeans(rest, parent, used + {path} + Elements(inner), taken);
      DistinctConcat([path] + inner, outer);
      DistinctConcat([path], inner);
      assert Elements([path]) == {path};
      assert Elements([path] + inner) == {path} + Elements(inner);
      assert Elements(Paths(b, parent)) == {path} + Elements(inner) + Elements(outer);
  }

  /** The state after a node body has been walked at `parent`. */
  ghost function Grown(st: State, b: Body): State
    requires st.Valid() && st.stack != []
  {
    State(st.nodes[st.Top() := st.nodes[st.Top()] + OwnProps(b)] + Below(b, st.Top()), st.stack)
  }

  lemma RunCons(st: State, tok: Token, ts: seq<Token>)
    requires st.Valid()
    ensures Run(st, [tok] + ts) == if Step(st, tok).Err? then Step(st, tok) else Run(Step(st, tok).value, ts)
  {
    assert ([tok] + ts)[1..] == ts;
  }

  /** Walking a body inside an open node succeeds exactly when it fits, and then records exactly it. */
  ghost predicate WalksBody(st: State, b: Body)
    requires st.Valid() && st.stack != []
  {
    if Fits(b, st.Top(), st.nodes.Keys, st.nodes[st.Top()].Keys)
    then Run(st, Flatten(b)) == Ok(Grown(st, b))
    else Run(st, Flatten(b)).Err?
  }

  lemma {:induction false} RunBody(st: State, b: Body)
    requires st.Valid() && st.stack != []
    ensures WalksBody(st, b)
    decreases b
  {
    var top := st.Top();
    match b
    case Done =>
      GrownDone(st);
    case Property(name, value, rest) =>
      RunCons(st, Prop(name, value), Flatten(rest));
      if name !in st.nodes[top] {
        var st1 := Step(st, Prop(name, value)).value;
        RunBody(st1, rest);
        assert st1.nodes.Keys == st.nodes.Keys;
        assert st1.nodes[top].Keys == st.nodes[top].Keys + {name};
        PropertyGrows(st, b);
      }
    case Filler(rest) =>
      RunCons(st, Nop, Flatten(rest));
      RunBody(st, rest);
    case Child(name, body, rest) =>
      var path := ChildPath(top, name);
      if '/' !in name && path !in st.nodes {
        OpenedIsValid(st, path);
        RunBody(Opened(st, path), body);
        RunChild(st, name, body);
        if Fits(body, path, st.nodes.Keys + {path}, {}) {
          ChildKeys(st, name, body);
          RunBody(WithChild(st, name, body), rest);
          ChildGrows(st, name, body, rest);
        }
        RunChildRest(st, name, body, rest);
      } else {
        RunCons(st, BeginNode(name), Flatten(body) + [EndNode] + Flatten(rest));
        assert Flatten(b) == [BeginNode(name)] + (Flatten(body) + [EndNode] + Flatten(rest));
      }
  }

  lemma GrownDone(st: State)
    requires st.Valid() && st.stack != []
    ensures Grown(st, Done) == st
  {
    var top := st.Top();
    assert top in st.stack;
    assert st.nodes[top] + OwnProps(Done) == st.nodes[top];
    assert st.nodes[top := st.nodes[top]] + Below(Done, top) == st.nodes;
  }

  ghost function Opened(st: State, path: string): State {
    State(st.nodes[path := map[]], st.stack + [path])
  }

  lemma OpenedIsValid(st: State, path: string)
    requires st.Valid()
    ensures Opened(st, path).Valid() && Opened(st, path).Top() == path
    ensures Opened(st, path).nodes.Keys == st.nodes.Keys + {path}
    ensures Opened(st, path).nodes[path] == map[] && Opened(st, path).nodes[path].Keys == {}
  {
  }

  /** The state after a complete child node has been walked. */
  ghost function WithChild(st: State, name: string, body: Body): State {
    var path := ChildPath(st.Top(), name);
    State(st.nodes + map[path := OwnProps(body)] + Below(body, path), st.stack)
  }

  lemma {:induction false} RunChild(st: State, name: string, body: Body)
    requires st.Valid() && st.stack != []
    requires '/' !in name && ChildPath(st.Top(), name) !in st.nodes
    requires Opened(st, ChildPath(st.Top(), name)).Valid()
    requires WalksBody(Opened(st, ChildPath(st.Top(), name)), body)
    ensures var run := Run(st, [BeginNode(name)] + Flatten(body) + [EndNode]);
            var path := ChildPath(st.Top(), name);
            if Fits(body, path, st.nodes.Keys + {path}, {}) then run == Ok(WithChild(st, name, body)) else run.Err?
  {
    var path := ChildPath(st.Top(), name);
    var open := Opened(st, path);
    assert [BeginNode(name)] + Flatten(body) + [EndNode] == [BeginNode(name)] + (Flatten(body) + [EndNode]);
    RunCons(st, BeginNode(name), Flatten(body) + [EndNode]);
    assert Step(st, BeginNode(name)) == Ok(open);
    OpenedIsValid(st, path);
    RunConcat(open, Flatten(body), [EndNode]);
    if Fits(body, path, st.nodes.Keys + {path}, {}) {
      assert Run(open, Flatten(body)) == Ok(Grown(open, body));
      CloseChild(st, name, body);
    }
  }

  lemma CloseChild(st: State, name: string, body: Body)
    requires st.Valid() && st.stack != []
    ensures var open := Opened(st, ChildPath(st.Top(), name));
            && open.Valid() && open.stack != []
            && Grown(open, body).Valid()
            && Run(Grown(open, body), [EndNode]) == Ok(WithChild(st, name, body))
  {
    var path := ChildPath(st.Top(), name);
    OpenedIsValid(st, path);
    var grown := Grown(Opened(st, path), body);
    assert map[] + OwnProps(body) == OwnProps(body);
    assert st.nodes[path := map[]][path := OwnProps(body)] == st.nodes + map[path := OwnProps(body)];
    assert grown.nodes == WithChild(st, name, body).nodes;
    assert grown.stack[..|grown.stack| - 1] == st.stack;
    assert [EndNode] == [EndNode] + [];
    RunCons(grown, EndNode, []);
  }

  lemma ChildKeys(st: State, name: string, body: Body)
    requires st.Valid() && st.stack != []
    requires ChildPath(st.Top(), name) !in st.nodes
    requires Fits(body, ChildPath(st.Top(), name), st.nodes.Keys + {ChildPath(st.Top(), name)}, {})
    ensures var path := ChildPath(st.Top(), name);
            var st1 := WithChild(st, name, body);
            && st1.Valid()
            && st1.nodes.Keys == st.nodes.Keys + {path} + Elements(Paths(body, path))
            && st.Top() in st.nodes && st.Top() != path && st.Top() !in Below(body, path)
            && st1.nodes[st.Top()] == st.nodes[st.Top()]
  {
    var path := ChildPath(st.Top(), name);
    BelowKeys(body, path);
    FitsMeans(body, path, st.nodes.Keys + {path}, {});
    assert st.Top() in st.stack;
  }

  lemma RunChildRest(st: State, name: string, body: Body, rest: Body)
    requires st.Valid() && st.stack != []
    requires '/' !in name && ChildPath(st.Top(), name) !in st.nodes
    requires var run := Run(st, [BeginNode(name)] + Flatten(body) + [EndNode]);
             var path := ChildPath(st.Top(), name);
             if Fits(body, path, st.nodes.Keys + {path}, {}) then run == Ok(WithChild(st, name, body)) else run.Err?
    requires var path := ChildPath(st.Top(), name);
             Fits(body, path, st.nodes.Keys + {path}, {}) ==>
               && WithChild(st, name, body).Valid()
               && WalksBody(WithChild(st, name, body), rest)
               && Grown(WithChild(st, name, body), rest) == Grown(st, Child(name, body, rest))
    ensures WalksBody(st, Child(name, body, rest))
  {
    TopIsRecorded(st);
    hide *;
    var path, node := ChildPath(st.Top(), name), [BeginNode(name)] + Flatten(body) + [EndNode];
    RunConcat(st, node, Flatten(rest));
    FlattenChild(name, body, rest);
    FitsChild(name, body, rest, st.Top(), path, st.nodes.Keys, st.nodes[st.Top()].Keys);
    WalksMeans(st, Child(name, body, rest));
    if Fits(body, path, st.nodes.Keys + {path}, {}) {
      var child := WithChild(st, name, body);
      ChildKeys(st, name, body);
      SameStack(st, name, body);
      WalksMeans(child, rest);
    }
  }

  lemma TopIsRecorded(st: State)
    requires st.Valid() && st.stack != []
    ensures st.Top() in st.nodes
  {
    assert st.Top() in st.stack;
  }

  lemma SameStack(st: State, name: string, body: Body)
    ensures var child := WithChild(st, name, body); child.stack == st.stack && child.Top() == st.Top()
  {
  }

  lemma WalksMeans(st: State, b: Body)
    requires st.Valid() && st.stack != [] && st.Top() in st.nodes
    ensures WalksBody(st, b) <==>
            if Fits(b, st.Top(), st.nodes.Keys, st.nodes[st.Top()].Keys) then Run(st, Flatten(b)) == Ok(Grown(st, b))
            else Run(st, Flatten(b)).Err?
  {
    hide Fits, Run, Flatten, Grown;
  }

  lemma FlattenChild(name: string, body: Body, rest: Body)
    ensures Flatten(Child(name, body, rest)) == [BeginNode(name)] + Flatten(body) + [EndNode] + Flatten(rest)
  {
  }

  lemma FitsChild(name: string, body: Body, rest: Body, parent: string, path: string, used: set<string>, taken: set<string>)
    requires '/' !in name && path == ChildPath(parent, name) && path !in used
    ensures Fits(Child(name, body, rest), parent, used, taken) <==>
            Fits(body, path, used + {path}, {}) && Fits(rest, parent, used + {path} + Elements(Paths(body, path)), taken)
  {
  }

  lemma PropertyGrows(st: State, b: Body)
    requires st.Valid() && st.stack != []
    requires b.Property? && b.name !in st.nodes[st.Top()]
    ensures Grown(Step(st, Prop(b.name, b.value)).value, b.rest) == Grown(st, b)
  {
    OwnThenMore(st.nodes, st.Top(), b.name, b.value, OwnProps(b.rest));
  }

  lemma OwnThenMore(nodes: NodeTable, top: string, name: string, value: seq<Byte>, more: Props)
    requires top in nodes
    ensures nodes[top := nodes[top][name := value]][top := nodes[top][name := value] + more]
         == nodes[top := nodes[top] + (map[name := value] + more)]
  {
    assert nodes[top][name := value] + more == nodes[top] + (map[name := value] + more);
  }

  lemma ChildGrows(st: State, name: string, body: Body, rest: Body)
    requires st.Valid() && st.stack != [] && st.Top() in st.nodes
    requires st.Top() != ChildPath(st.Top(), name) && st.Top() !in Below(body, ChildPath(st.Top(), name))
    requires WithChild(st, name, body).Valid()
    ensures Grown(WithChild(st, name, body), rest) == Grown(st, Child(name, body, rest))
  {
    var top, path := st.Top(), ChildPath(st.Top(), name);
    var node, below, own, after := map[path := OwnProps(body)], Below(body, path), OwnProps(rest), Below(rest, top);
    ChildParts(name, body, rest, top);
    hide OwnProps, Below, ChildPath, State.Valid;
    var child := WithChild(st, name, body);
    assert child.nodes == st.nodes + node + below && child.stack == st.stack && child.Top() == top;
    ChildThenRest(st.nodes, top, node, below, own, after);
    hide WithChild;
    assert Grown(child, rest).nodes == child.nodes[top := child.nodes[top] + own] + after;
  }

  lemma ChildParts(name: string, body: Body, rest: Body, top: string)
    ensures OwnProps(Child(name, body, rest)) == OwnProps(rest)
    ensures var path := ChildPath(top, name);
            Below(Child(name, body, rest), top) == map[path := OwnProps(body)] + Below(body, path) + Below(rest, top)
  {
  }

  lemma ChildThenRest(nodes: NodeTable, top: string, node: NodeTable, below: NodeTable, own: Props, after: NodeTable)
    requires top in nodes && top !in node && top !in below
    ensures var grown := nodes + node + below;
            grown[top := grown[top] + own] + after == nodes[top := nodes[top] + own] + (node + below + after)
  {
    var grown := nodes + node + below;
    assert grown[top] == nodes[top];
    var x := nodes[top] + own;
    MergeUpdated(nodes, node, below, top, x);
    MergeGroups(nodes[top := x], node + below, after);
  }

  lemma MergeUpdated(nodes: NodeTable, node: NodeTable, below: NodeTable, top: string, x: Props)
    requires top !in node && top !in below
    ensures (nodes + node + below)[top := x] == nodes[top := x] + (node + below)
  {
  }

  lemma MergeGroups(a: NodeTable, b: NodeTable, c: NodeTable)
    ensures a + b + c == a + (b + c)
  {
  }

  lemma {:induction false} RunNops(st: State, n: nat)
    requires st.Valid()
    ensures Run(st, Nops(n)) == Ok(st)
  {
    if n > 0 {
      assert Nops(n) == [Nop] + Nops(n - 1);
      RunCons(st, Nop, Nops(n - 1));
      RunNops(st, n - 1);
    }
  }

  lemma RootOpens()
    ensures Step(INITIAL, BeginNode("")) == Ok(State(map["/" := map[]], ["/"]))
  {
    assert RStrip("") == "";
    assert ChildPath(INITIAL.Top(), "") == "/";
    assert INITIAL.nodes["/" := map[]] == map["/" := map[]];
    assert INITIAL.stack + ["/"] == ["/"];
  }

  // ---------------------------------------------------------------------------------------------
  // What the paths are
  // ---------------------------------------------------------------------------------------------

  /** A chain of child names that leads from the contents `b` of a node to the contents of one below it. */
  ghost predicate Leads(b: Body, chain: seq<string>, node: Body) {
    match b
    case Done => false
    case Property(_, _, rest) => Leads(rest, chain, node)
    case Filler(rest) => Leads(rest, chain, node)
    case Child(name, body, rest) =>
      || (chain == [name] && node == body)
      || (|chain| > 1 && chain[0] == name && Leads(body, chain[1..], node))
      || Leads(rest, chain, node)
  }

  /** The chains of all nodes below, in document order. */
  function Chains(b: Body): seq<seq<string>> {
    match b
    case Done => []
    case Property(_, _, rest) => Chains(rest)
    case Filler(rest) => Chains(rest)
    case Child(name, body, rest) => [[name]] + Prefixed(name, Chains(body)) + Chains(rest)
  }

  function Prefixed(name: string, chains: seq<seq<string>>): (r: seq<seq<string>>)
    ensures |r| == |chains| && forall i :: 0 <= i < |r| ==> r[i] == [name] + chains[i]
  {
    if chains == [] then [] else [[name] + chains[0]] + Prefixed(name, chains[1..])
  }

  function Named(chain: seq<string>): seq<string> {
    if chain == [] then [] else (if chain[0] == "" then [] else [chain[0]]) + Named(chain[1..])
  }

  /** A node's path: the names on the way to it that are not empty, joined by slashes after a leading one, with a slash
      at the end for a node whose own name is empty. */
  function ChainPath(chain: seq<string>): string {
    if Named(chain) == [] then "/"
    else "/" + PosixPath.Join(Named(chain)) + if chain[|chain| - 1] == "" then "/" else ""
  }

  function PathsFrom(prefix: seq<string>, chains: seq<seq<string>>): (r: seq<string>)
    ensures |r| == |chains| && forall i :: 0 <= i < |r| ==> r[i] == ChainPath(prefix + chains[i])
  {
    seq(|chains|, i requires 0 <= i < |chains| => ChainPath(prefix + chains[i]))
  }

  ghost predicate SlashFree(chain: seq<string>) {
    forall i :: 0 <= i < |chain| ==> '/' !in chain[i]
  }

  lemma {:induction false} NamedSnoc(chain: seq<string>, name: string)
    ensures Named(chain + [name]) == Named(chain) + if name == "" then [] else [name]
  {
    if chain == [] {
      assert [] + [name] == [name];
    } else {
      assert (chain + [name])[1..] == chain[1..] + [name];
      NamedSnoc(chain[1..], name);
    }
  }

  lemma {:induction false} NamedIs(chain: seq<string>)
    requires SlashFree(chain)
    ensures SlashFree(Named(chain)) && forall i :: 0 <= i < |Named(chain)| ==> Named(chain)[i] != ""
  {
    if chain != [] { NamedIs(chain[1..]); }
  }

  lemma {:induction false} JoinEnds(parts: seq<string>)
    requires parts != [] && SlashFree(parts) && forall i :: 0 <= i < |parts| ==> parts[i] != ""
    ensures var text := PosixPath.Join(parts); text != "" && text[|text| - 1] != '/'
  {
    if |parts| == 1 {
      assert parts[0][|parts[0]| - 1] in parts[0];
    } else {
      JoinEnds(parts[1..]);
    }
  }

  lemma StripNone(s: string)
    requires s != "" && s[|s| - 1] != '/'
    ensures RStrip(s) == s && RStrip(s + "/") == s
  {
    assert (s + "/")[..|s|] == s;
  }

  lemma StripChain(chain: seq<string>)
    requires SlashFree(chain)
    ensures RStrip(ChainPath(chain)) == if Named(chain) == [] then "" else "/" + PosixPath.Join(Named(chain))
  {
    var named := Named(chain);
    if named == [] {
      assert "/"[..0] == "";
    } else {
      NamedIs(chain);
      JoinEnds(named);
      StripNone("/" + PosixPath.Join(named));
      assert ChainPath(chain) == "/" + PosixPath.Join(named) + (if chain[|chain| - 1] == "" then "/" else "");
      assert "/" + PosixPath.Join(named) + "" == "/" + PosixPath.Join(named);
    }
  }

  /** One name further down. */
  lemma ChainPathSnoc(chain: seq<string>, name: string)
    requires SlashFree(chain)
    ensures ChildPath(ChainPath(chain), name) == ChainPath(chain + [name])
  {
    var named, longer := Named(chain), chain + [name];
    StripChain(chain);
    NamedSnoc(chain, name);
    assert longer[|longer| - 1] == name;
    hide RStrip, Named;
    JoinFurther(named, name);
    hide PosixPath.Join;
  }

  lemma JoinFurther(named: seq<string>, name: string)
    ensures var longer := named + if name == "" then [] else [name];
            (if named == [] then "" else "/" + PosixPath.Join(named)) + "/" + name ==
            if longer == [] then "/" else "/" + PosixPath.Join(longer) + if name == "" then "/" else ""
  {
    if name == "" {
      assert named + [] == named;
    } else if named == [] {
      assert [] + [name] == [name];
    } else {
      PosixPath.JoinSnoc(named, name);
      hide PosixPath.Join;
      SlashInFront(PosixPath.Join(named), name);
    }
  }

  lemma SlashInFront(text: string, name: string)
    ensures "/" + text + "/" + name == "/" + (text + "/" + name) + ""
  {
  }

  lemma PathsFromConcat(prefix: seq<string>, a: seq<seq<string>>, b: seq<seq<string>>)
    ensures PathsFrom(prefix, a + b) == PathsFrom(prefix, a) + PathsFrom(prefix, b)
  {
    hide ChainPath;
  }

  lemma PathsFromPrefixed(prefix: seq<string>, name: string, chains: seq<seq<string>>)
    ensures PathsFrom(prefix, Prefixed(name, chains)) == PathsFrom(prefix + [name], chains)
  {
    hide ChainPath;
    var a, b := PathsFrom(prefix, Prefixed(name, chains)), PathsFrom(prefix + [name], chains);
    forall i | 0 <= i < |a| ensures a[i] == b[i] {
      assert prefix + ([name] + chains[i]) == prefix + [name] + chains[i];
    }
  }

  /** The paths that the walk records, by chains. */
  lemma {:induction false} PathsAre(b: Body, prefix: seq<string>)
    requires Clean(b) && SlashFree(prefix)
    ensures Paths(b, ChainPath(prefix)) == PathsFrom(prefix, Chains(b))
    decreases b
  {
    hide ChainPath, ChildPath;
    match b
    case Done =>
    case Property(_, _, rest) => PathsAre(rest, prefix);
    case Filler(rest) => PathsAre(rest, prefix);
    case Child(name, body, rest) =>
      ChainPathSnoc(prefix, name);
      PathsAre(body, prefix + [name]);
      PathsAre(rest, prefix);
      PathsFromPrefixed(prefix, name, Chains(body));
      PathsFromConcat(prefix, [[name]], Prefixed(name, Chains(body)));
      PathsFromConcat(prefix, [[name]] + Prefixed(name, Chains(body)), Chains(rest));
      assert PathsFrom(prefix, [[name]]) == [ChainPath(prefix + [name])];
  }

  /** What stands below a child and beside it stands in the table undisturbed. */
  lemma BelowChild(name: string, body: Body, rest: Body, parent: string, here: string)
    requires here == ChildPath(parent, name) && Distinct(Paths(Child(name, body, rest), parent))
    ensures Distinct(Paths(body, here)) && Distinct(Paths(rest, parent))
    ensures var below := Below(Child(name, body, rest), parent);
            && here in below && below[here] == OwnProps(body)
            && Within(Below(body, here), below) && Within(Below(rest, parent), below)
  {
    hide ChildPath, OwnProps;
    var inner, outer := Paths(body, here), Paths(rest, parent);
    DistinctConcat([here] + inner, outer);
    DistinctConcat([here], inner);
    BelowKeys(body, here);
    BelowKeys(rest, parent);
    assert here in Elements([here]) && here in Elements([here] + inner);
    assert Elements(inner) <= Elements([here] + inner);
  }

  ghost predicate Within(part: NodeTable, whole: NodeTable) {
    forall path :: path in part ==> path in whole && whole[path] == part[path]
  }

  lemma {:induction false} BelowLeads(b: Body, prefix: seq<string>, chain: seq<string>, node: Body)
    requires Clean(b) && SlashFree(prefix) && Distinct(Paths(b, ChainPath(prefix))) && Leads(b, chain, node)
    ensures var below, path := Below(b, ChainPath(prefix)), ChainPath(prefix + chain);
            path in below && below[path] == OwnProps(node)
    decreases b
  {
    hide ChainPath, ChildPath, OwnProps;
    match b
    case Property(_, _, rest) => BelowLeads(rest, prefix, chain, node);
    case Filler(rest) => BelowLeads(rest, prefix, chain, node);
    case Child(name, body, rest) =>
      ChainPathSnoc(prefix, name);
      BelowChild(name, body, rest, ChainPath(prefix), ChainPath(prefix + [name]));
      hide Below, Paths;
      if chain == [name] && node == body {
      } else if |chain| > 1 && chain[0] == name && Leads(body, chain[1..], node) {
        BelowLeads(body, prefix + [name], chain[1..], node);
        assert prefix + [name] + chain[1..] == prefix + chain;
      } else {
        BelowLeads(rest, prefix, chain, node);
      }
  }

  lemma {:induction false} BelowComes(b: Body, prefix: seq<string>, path: string) returns (chain: seq<string>, node: Body)
    requires Clean(b) && SlashFree(prefix) && path in Below(b, ChainPath(prefix))
    ensures Leads(b, chain, node) && path == ChainPath(prefix + chain)
    decreases b
  {
    hide ChainPath, ChildPath, OwnProps;
    match b
    case Property(_, _, rest) => chain, node := BelowComes(rest, prefix, path);
    case Filler(rest) => chain, node := BelowComes(rest, prefix, path);
    case Child(name, body, rest) =>
      ChainPathSnoc(prefix, name);
      if path in Below(rest, ChainPath(prefix)) {
        chain, node := BelowComes(rest, prefix, path);
      } else if path in Below(body, ChainPath(prefix + [name])) {
        var inner, found := BelowComes(body, prefix + [name], path);
        chain, node := [name] + inner, found;
        LeadsFurther(name, body, rest, inner, node);
        assert prefix + [name] + inner == prefix + chain;
      } else {
        chain, node := [name], body;
      }
  }

  lemma LeadsFurther(name: string, body: Body, rest: Body, chain: seq<string>, node: Body)
    requires Leads(body, chain, node)
    ensures Leads(Child(name, body, rest), [name] + chain, node)
  {
    LeadsSome(body, chain, node);
    assert ([name] + chain)[1..] == chain;
  }

  lemma {:induction false} LeadsSome(b: Body, chain: seq<string>, node: Body)
    requires Leads(b, chain, node)
    ensures chain != []
  {
    match b
    case Property(_, _, rest) => LeadsSome(rest, chain, node);
    case Filler(rest) => LeadsSome(rest, chain, node);
    case Child(_, _, rest) => if chain == [] { LeadsSome(rest, chain, node); }
  }

  /** The table holds the root under a slash and every node under the path of the chain that leads to it, each with its
      own properties, and nothing else. */
  ghost predicate Describes(table: NodeTable, root: Body) {
    && "/" in table && table["/"] == OwnProps(root)
    && (forall chain, node :: Leads(root, chain, node) ==>
          ChainPath(chain) in table && table[ChainPath(chain)] == OwnProps(node))
    && (forall path :: path in table && path != "/" ==> LedTo(root, path))
  }

  ghost predicate LedTo(root: Body, path: string) {
    exists chain, node :: Leads(root, chain, node) && path == ChainPath(chain)
  }

  /** The tree is clean and no two of its nodes have the same path. */
  ghost predicate Addressed(root: Body) {
    Clean(root) && Distinct(OwnPropNames(root)) && Distinct(["/"] + PathsFrom([], Chains(root)))
  }

  lemma RootPath()
    ensures ChainPath([]) == "/"
  {
  }

  lemma AcceptableIsAddressed(root: Body)
    ensures Acceptable(root) <==> Addressed(root)
  {
    RootPath();
    hide ChainPath, OwnPropNames;
    if Clean(root) { PathsAre(root, []); }
  }

  lemma RootWithin(root: Body)
    requires Acceptable(root)
    ensures Distinct(Paths(root, "/")) && Within(Below(root, "/"), TreeTable(root))
    ensures "/" in TreeTable(root) && TreeTable(root)["/"] == OwnProps(root)
  {
    hide Clean, OwnPropNames, OwnProps, Paths, Below;
    DistinctConcat(["/"], Paths(root, "/"));
    BelowKeys(root, "/");
    assert "/" in Elements(["/"]);
  }

  lemma TableDescribes(root: Body)
    requires Acceptable(root)
    ensures Describes(TreeTable(root), root)
  {
    RootPath();
    RootWithin(root);
    hide ChainPath, Clean, OwnPropNames, OwnProps, Leads, Paths, Below;
    forall chain, node | Leads(root, chain, node)
      ensures ChainPath(chain) in TreeTable(root) && TreeTable(root)[ChainPath(chain)] == OwnProps(node)
    {
      BelowLeads(root, [], chain, node);
      assert [] + chain == chain;
    }
    forall path | path in TreeTable(root) && path != "/" ensures LedTo(root, path) {
      var chain, node := BelowComes(root, [], path);
      assert [] + chain == chain;
    }
  }

  /** Completeness, with its exact condition: the walk takes the block of a tree if and only if no two of its nodes have
      the same path, no name holds a slash and no node repeats a property; and then its dictionary is the tree's own
      table of paths and properties. */
  lemma {:induction false} BlockAccepted(before: nat, root: Body, after: nat)
    ensures var run := Run(INITIAL, FlattenBlock(before, root, after));
            if Acceptable(root) then run == Ok(State(TreeTable(root), [])) else run.Err?
    ensures Acceptable(root) <==> Addressed(root)
    ensures Acceptable(root) ==> Describes(TreeTable(root), root)
  {
    AcceptableIsAddressed(root);
    if Acceptable(root) { TableDescribes(root); }
    hide Describes, Addressed, Acceptable, TreeTable;
    var core := [BeginNode("")] + Flatten(root) + [EndNode];
    assert FlattenBlock(before, root, after) == Nops(before) + (core + Nops(after));
    RunNops(INITIAL, before);
    RunConcat(INITIAL, Nops(before), core + Nops(after));
    RunConcat(INITIAL, core, Nops(after));
    RunRoot(root);
    if Acceptable(root) { RunNops(State(TreeTable(root), []), after); }
  }

  lemma {:induction false} RunRoot(root: Body)
    ensures var run := Run(INITIAL, [BeginNode("")] + Flatten(root) + [EndNode]);
            if Acceptable(root) then run == Ok(State(TreeTable(root), [])) else run.Err?
  {
    var open := State(map["/" := map[]], ["/"]);
    RootOpens();
    assert [BeginNode("")] + Flatten(root) + [EndNode] == [BeginNode("")] + (Flatten(root) + [EndNode]);
    RunCons(INITIAL, BeginNode(""), Flatten(root) + [EndNode]);
    assert open.nodes.Keys == {"/"} && open.nodes["/"].Keys == {};
    RunBody(open, root);
    RunConcat(open, Flatten(root), [EndNode]);
    AcceptableFits(root);
    if Acceptable(root) { CloseRoot(open, root); }
  }

  lemma CloseRoot(open: State, root: Body)
    requires open == State(map["/" := map[]], ["/"])
    ensures Grown(open, root).Valid() && Run(Grown(open, root), [EndNode]) == Ok(State(TreeTable(root), []))
  {
    assert map[] + OwnProps(root) == OwnProps(root);
    assert open.nodes["/" := OwnProps(root)] == map["/" := OwnProps(root)];
    assert [EndNode] == [EndNode] + [];
    RunCons(Grown(open, root), EndNode, []);
  }

  lemma AcceptableFits(root: Body)
    ensures Acceptable(root) <==> Fits(root, "/", {"/"}, {})
  {
    FitsMeans(root, "/", {"/"}, {});
    DistinctConcat(["/"], Paths(root, "/"));
    assert Elements(["/"]) == {"/"};
  }

  // ---------------------------------------------------------------------------------------------
  // Every accepted token sequence is a tree
  // ---------------------------------------------------------------------------------------------

  /** Reads a body off the front of `ts`, up to an unmatched FDT_END_NODE or the end; None if a node stays open. */
  ghost function Unflatten(ts: seq<Token>): (r: Option<(Body, seq<Token>)>)
    ensures r.Some? ==> |r.value.1| <= |ts| && (r.value.1 == [] || r.value.1[0] == EndNode)
    decreases |ts|
  {
    if ts == [] || ts[0] == EndNode then Some((Done, ts))
    else match ts[0]
      case Prop(name, value) =>
        var more := Unflatten(ts[1..]);
        if more.None? then None else Some((Property(name, value, more.value.0), more.value.1))
      case Nop =>
        var more := Unflatten(ts[1..]);
        if more.None? then None else Some((Filler(more.value.0), more.value.1))
      case BeginNode(name) =>
        var inner := Unflatten(ts[1..]);
        if inner.None? || inner.value.1 == [] then None
        else
          var outer := Unflatten(inner.value.1[1..]);
          if outer.None? then None else Some((Child(name, inner.value.0, outer.value.0), outer.value.1))
  }

  lemma {:induction false} UnflattenInverts(ts: seq<Token>)
    ensures Unflatten(ts).Some? ==> ts == Flatten(Unflatten(ts).value.0) + Unflatten(ts).value.1
    decreases |ts|
  {
    if Unflatten(ts).Some? && ts != [] && ts[0] != EndNode {
      UnflattenInverts(ts[1..]);
      var (body, rest) := Unflatten(ts[1..]).value;
      if ts[0].BeginNode? {
        UnflattenInverts(rest[1..]);
        var (outer, tail) := Unflatten(rest[1..]).value;
        NodeInFront(ts, Flatten(body), rest, Flatten(outer), tail);
      } else {
        ItemInFront(ts, Flatten(body), rest);
      }
    }
  }

  lemma ItemInFront(ts: seq<Token>, a: seq<Token>, tail: seq<Token>)
    requires ts != [] && ts[1..] == a + tail
    ensures ts == [ts[0]] + a + tail
  {
    assert ts == [ts[0]] + ts[1..];
  }

  lemma NodeInFront(ts: seq<Token>, a: seq<Token>, rest: seq<Token>, b: seq<Token>, tail: seq<Token>)
    requires ts != [] && ts[1..] == a + rest && rest != [] && rest[1..] == b + tail
    ensures ts == [ts[0]] + a + [rest[0]] + b + tail
  {
    ItemInFront(ts, a, rest);
    ItemInFront(rest, b, tail);
    assert ([ts[0]] + a) + ([rest[0]] + b + tail) == [ts[0]] + a + [rest[0]] + b + tail;
  }

  /** A run that leaves a node open ends with a deeper stack than it began with. */
  lemma {:induction false} StackDepth(st: State, ts: seq<Token>)
    requires st.Valid() && Run(st, ts).Ok?
    ensures Unflatten(ts).None? ==> |Run(st, ts).value.stack| > |st.stack|
    ensures Unflatten(ts).Some? ==>
      var (body, rest) := Unflatten(ts).value;
      && Run(st, Flatten(body)).Ok?
      && |Run(st, Flatten(body)).value.stack| == |st.stack|
      && Run(st, ts) == Run(Run(st, Flatten(body)).value, rest)
    decreases |ts|
  {
    UnflattenInverts(ts);
    if Unflatten(ts).Some? { RunConcat(st, Flatten(Unflatten(ts).value.0), Unflatten(ts).value.1); }
    if ts != [] && ts[0] != EndNode {
      assert ts == [ts[0]] + ts[1..];
      var next := Step(st, ts[0]).value;
      StackDepth(next, ts[1..]);
      var more := Unflatten(ts[1..]);
      if more.Some? {
        var (body, rest) := more.value;
        match ts[0]
        case Prop(name, value) => RunCons(st, ts[0], Flatten(body));
        case Nop => RunCons(st, ts[0], Flatten(body));
        case BeginNode(name) =>
          if rest != [] {
            var mid := Run(next, Flatten(body)).value;
            assert rest == [EndNode] + rest[1..];
            var closed := Step(mid, EndNode).value;
            StackDepth(closed, rest[1..]);
            var after := Unflatten(rest[1..]);
            if after.Some? { ClosedNode(st, name, body, after.value.0); }
          }
      }
    }
  }

  lemma Regroup(a: seq<Token>, b: seq<Token>, c: seq<Token>, d: seq<Token>)
    ensures a + b + c + d == a + (b + (c + d))
  {
  }

  lemma ClosedNode(st: State, name: string, body: Body, rest: Body)
    requires st.Valid() && Step(st, BeginNode(name)).Ok?
    requires Run(Step(st, BeginNode(name)).value, Flatten(body)).Ok?
    requires Step(Run(Step(st, BeginNode(name)).value, Flatten(body)).value, EndNode).Ok?
    ensures var mid := Run(Step(st, BeginNode(name)).value, Flatten(body)).value;
            Run(st, Flatten(Child(name, body, rest))) == Run(Step(mid, EndNode).value, Flatten(rest))
  {
    var next := Step(st, BeginNode(name)).value;
    var tail := [EndNode] + Flatten(rest);
    Regroup([BeginNode(name)], Flatten(body), [EndNode], Flatten(rest));
    RunCons(st, BeginNode(name), Flatten(body) + tail);
    RunConcat(next, Flatten(body), tail);
    RunCons(Run(next, Flatten(body)).value, EndNode, Flatten(rest));
  }

  /** Soundness: a token sequence that the walk takes, ending with no node open and at least one recorded, is the
      block of one acceptable tree, and the dictionary is that tree's table. */
  lemma {:induction false} AcceptedIsTree(ts: seq<Token>) returns (before: nat, root: Body, after: nat)
    requires Run(INITIAL, ts).Ok? && Run(INITIAL, ts).value.stack == []
    requires Run(INITIAL, ts).value.nodes != map[]
    ensures ts == FlattenBlock(before, root, after)
    ensures Acceptable(root)
    ensures Run(INITIAL, ts).value.nodes == TreeTable(root)
  {
    StackDepth(INITIAL, ts);
    UnflattenInverts(ts);
    var (top, rest) := Unflatten(ts).value;
    EndAtTop(Run(INITIAL, Flatten(top)).value, rest);
    assert ts == Flatten(top);
    before, root, after := SingleRoot(INITIAL, top);
    BlockAccepted(before, root, after);
  }

  lemma EndAtTop(st: State, ts: seq<Token>)
    requires st.Valid() && st.stack == []
    ensures ts != [] && ts[0] == EndNode ==> Run(st, ts).Err?
  {
  }

  /** At top level only NOPs may surround the one root. */
  lemma {:induction false} SingleRoot(st: State, top: Body) returns (before: nat, root: Body, after: nat)
    requires st == INITIAL && Run(st, Flatten(top)).Ok?
    requires Run(st, Flatten(top)).value.nodes != map[]
    ensures Flatten(top) == FlattenBlock(before, root, after)
    decreases top
  {
    before, root, after := 0, Done, 0;
    match top
    case Done =>
    case Property(name, value, rest) =>
      RunCons(st, Prop(name, value), Flatten(rest));
    case Filler(rest) =>
      RunCons(st, Nop, Flatten(rest));
      before, root, after := SingleRoot(st, rest);
      NopInFront(before, root, after);
      before := before + 1;
    case Child(name, body, rest) =>
      after := RootThenNops(st, name, body, rest);
      root := body;
  }

  lemma NopInFront(before: nat, root: Body, after: nat)
    ensures FlattenBlock(before + 1, root, after) == [Nop] + FlattenBlock(before, root, after)
  {
    assert Nops(before + 1) == [Nop] + Nops(before);
  }

  lemma {:induction false} RootThenNops(st: State, name: string, body: Body, rest: Body) returns (after: nat)
    requires st == INITIAL && Run(st, Flatten(Child(name, body, rest))).Ok?
    ensures Flatten(Child(name, body, rest)) == FlattenBlock(0, body, after)
  {
    Regroup([BeginNode(name)], Flatten(body), [EndNode], Flatten(rest));
    RunCons(st, BeginNode(name), Flatten(body) + ([EndNode] + Flatten(rest)));
    assert name == "";
    var core := [BeginNode("")] + Flatten(body) + [EndNode];
    RunConcat(st, core, Flatten(rest));
    RunRoot(body);
    assert "/" in TreeTable(body);
    after := OnlyNops(State(TreeTable(body), []), rest);
    assert Nops(0) + [BeginNode("")] == [BeginNode("")];
  }

  lemma SecondRoot(st: State, name: string, body: Body, more: Body)
    requires st.Valid() && st.stack == [] && st.nodes != map[]
    ensures Run(st, Flatten(Child(name, body, more))).Err?
  {
    assert Flatten(Child(name, body, more)) == [BeginNode(name)] + (Flatten(body) + [EndNode] + Flatten(more));
    RunCons(st, BeginNode(name), Flatten(body) + [EndNode] + Flatten(more));
  }

  lemma {:induction false} OnlyNops(st: State, rest: Body) returns (n: nat)
    requires st.Valid() && st.stack == [] && st.nodes != map[] && Run(st, Flatten(rest)).Ok?
    ensures Flatten(rest) == Nops(n)
    decreases rest
  {
    n := 0;
    match rest
    case Done =>
    case Property(name, value, more) =>
      RunCons(st, Prop(name, value), Flatten(more));
    case Filler(more) =>
      RunCons(st, Nop, Flatten(more));
      n := OnlyNops(st, more);
      assert Nops(n + 1) == [Nop] + Nops(n);
      n := n + 1;
    case Child(name, body, more) =>
      SecondRoot(st, name, body, more);
  }

  // ---------------------------------------------------------------------------------------------
  // Trees that follow the Devicetree Specification
  // ---------------------------------------------------------------------------------------------

  function ChildNames(b: Body): seq<string> {
    match b
    case Done => []
    case Property(_, _, rest) => ChildNames(rest)
    case Filler(rest) => ChildNames(rest)
    case Child(name, _, rest) => [name] + ChildNames(rest)
  }

  /** Section 2.2.1: names are nonempty, hold no slash, and differ among the children of one node. */
  ghost predicate Conforming(b: Body) {
    && Distinct(ChildNames(b))
    && Distinct(OwnPropNames(b))
    && NamesConform(b)
  }

  ghost predicate NamesConform(b: Body) {
    match b
    case Done => true
    case Property(_, _, rest) => NamesConform(rest)
    case Filler(rest) => NamesConform(rest)
    case Child(name, body, rest) =>
      name != "" && '/' !in name && Distinct(ChildNames(body)) && Distinct(OwnPropNames(body))
      && NamesConform(body) && NamesConform(rest)
  }

  /** `q` is the node at `p` or lies beneath it. */
  ghost predicate Under(q: string, p: string) {
    p <= q && (|q| == |p| || q[|p|] == '/')
  }

  lemma UnderOneChild(q: string, base: string, m: string, n: string)
    requires '/' !in m && '/' !in n
    requires Under(q, base + "/" + m) && Under(q, base + "/" + n)
    ensures m == n
  {
    NameAfterSlash(q, base, m);
    NameAfterSlash(q, base, n);
  }

  /** The name is what stands between that slash and the next one. */
  lemma NameAfterSlash(q: string, base: string, name: string)
    requires '/' !in name && Under(q, base + "/" + name)
    ensures |base| + 1 + |name| <= |q| && q[|base| + 1..|base| + 1 + |name|] == name
    ensures forall k :: |base| + 1 <= k < |base| + 1 + |name| ==> q[k] != '/'
    ensures |base| + 1 + |name| < |q| ==> q[|base| + 1 + |name|] == '/'
  {
    forall k | |base| + 1 <= k < |base| + 1 + |name| ensures q[k] != '/' {
      assert q[k] == name[k - |base| - 1];
    }
  }

  lemma ConformingPath(parent: string, name: string)
    requires name != "" && '/' !in name
    ensures RStrip(ChildPath(parent, name)) == ChildPath(parent, name)
  {
    var path := ChildPath(parent, name);
    assert path[|path| - 1] == name[|name| - 1];
  }

  /** Each path lies under the path of one of the children at this level. */
  lemma {:induction false} PathsUnderChildren(b: Body, parent: string)
    requires NamesConform(b)
    ensures forall q :: q in Paths(b, parent) ==> exists n :: n in ChildNames(b) && Under(q, ChildPath(parent, n))
    decreases b
  {
    match b
    case Done =>
    case Property(_, _, rest) => PathsUnderChildren(rest, parent);
    case Filler(rest) => PathsUnderChildren(rest, parent);
    case Child(name, body, rest) =>
      var path := ChildPath(parent, name);
      PathsUnderChildren(rest, parent);
      PathsUnderChildren(body, path);
      ConformingPath(parent, name);
      forall q | q in Paths(b, parent)
        ensures exists n :: n in ChildNames(b) && Under(q, ChildPath(parent, n))
      {
        if q == path || q in Paths(body, path) {
          if q != path {
            var n :| n in ChildNames(body) && Under(q, ChildPath(path, n));
            assert q[|path|] == ChildPath(path, n)[|path|];
          }
          assert Under(q, path) && name in ChildNames(b);
        } else {
          var n :| n in ChildNames(rest) && Under(q, ChildPath(parent, n));
          assert n in ChildNames(b);
        }
      }
  }

  lemma {:induction false} ChildNamesSlashFree(b: Body)
    requires NamesConform(b)
    ensures forall n :: n in ChildNames(b) ==> n != "" && '/' !in n
  {
    match b
    case Done =>
    case Property(_, _, rest) => ChildNamesSlashFree(rest);
    case Filler(rest) => ChildNamesSlashFree(rest);
    case Child(_, _, rest) => ChildNamesSlashFree(rest);
  }

  lemma {:induction false} ConformingPathsDistinct(b: Body, parent: string)
    requires NamesConform(b) && Distinct(ChildNames(b))
    ensures Distinct(Paths(b, parent)) && Clean(b)
    decreases b
  {
    match b
    case Done =>
    case Property(_, _, rest) => ConformingPathsDistinct(rest, parent);
    case Filler(rest) => ConformingPathsDistinct(rest, parent);
    case Child(name, body, rest) =>
      var path := ChildPath(parent, name);
      DistinctConcat([name], ChildNames(rest));
      ConformingPathsDistinct(rest, parent);
      ConformingPathsDistinct(body, path);
      PathsUnderChildren(rest, parent);
      PathsUnderChildren(body, path);
      ChildNamesSlashFree(rest);
      ConformingPath(parent, name);
      assert name in Elements([name]);
      var inner, outer := Paths(body, path), Paths(rest, parent);
      forall q | q in [path] + inner ensures q !in outer && (q in inner ==> q != path) {
        if q in inner {
          var n :| n in ChildNames(body) && Under(q, ChildPath(path, n));
          assert q[|path|] == ChildPath(path, n)[|path|];
          assert |q| > |path|;
        }
        assert Under(q, path);
        if q in outer {
          var n :| n in ChildNames(rest) && Under(q, ChildPath(parent, n));
          UnderOneChild(q, RStrip(parent), name, n);
        }
      }
      DistinctConcat([path], inner);
      DistinctConcat([path] + inner, outer);
  }

  lemma {:induction false} ConformingChain(b: Body, chain: seq<string>, node: Body)
    requires NamesConform(b) && Leads(b, chain, node)
    ensures chain != [] && forall i :: 0 <= i < |chain| ==> chain[i] != ""
    decreases b
  {
    match b
    case Property(_, _, rest) => ConformingChain(rest, chain, node);
    case Filler(rest) => ConformingChain(rest, chain, node);
    case Child(name, body, rest) =>
      if |chain| > 1 && chain[0] == name && Leads(body, chain[1..], node) {
        ConformingChain(body, chain[1..], node);
        assert forall i :: 1 <= i < |chain| ==> chain[i] == chain[1..][i - 1];
      } else if chain != [name] || node != body {
        ConformingChain(rest, chain, node);
      }
  }

  lemma {:induction false} NamedAll(chain: seq<string>)
    requires forall i :: 0 <= i < |chain| ==> chain[i] != ""
    ensures Named(chain) == chain
  {
    if chain != [] {
      NamedAll(chain[1..]);
      assert chain == [chain[0]] + chain[1..];
    }
  }

  /** In such a tree a node's path is a slash and the names on the way to it, joined by slashes. */
  lemma ConformingPaths(root: Body, chain: seq<string>, node: Body)
    requires Conforming(root) && Leads(root, chain, node)
    ensures ChainPath(chain) == "/" + PosixPath.Join(chain)
  {
    ConformingChain(root, chain, node);
    NamedAll(chain);
    assert "/" + PosixPath.Join(chain) + "" == "/" + PosixPath.Join(chain);
  }

  /** Any tree that follows the naming rules of the specification is acceptable: distinct sibling names already
      make the slash-joined paths distinct, at every depth. */
  lemma {:induction false} ConformingIsAcceptable(root: Body)
    requires Conforming(root)
    ensures Acceptable(root)
  {
    ConformingPathsDistinct(root, "/");
    PathsUnderChildren(root, "/");
    ChildNamesSlashFree(root);
    assert RStrip("/") == "";
    forall q | q in Paths(root, "/") ensures q != "/" {
      var n :| n in ChildNames(root) && Under(q, ChildPath("/", n));
      assert |q| >= 1 + |n|;
    }
    DistinctConcat(["/"], Paths(root, "/"));
  }
}
