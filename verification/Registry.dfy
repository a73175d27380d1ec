/** The linked list of loaded modules (`bitmap.c`) against the sequence of modules it stands for. */
module Registry {

  /** A `module_reg` together with the reference count of the kernel module behind it. */
  class ModuleReg {
    const kind: int
    var refs: nat

    constructor (kind: int)
      ensures this.kind == kind && refs == 0
    {
      this.kind := kind;
      refs := 0;
    }
  }

  /** Index of the first module of a kind, or |ms| when there is none. */
  function FirstOfKind(ms: seq<ModuleReg>, kind: int): (i: nat)
    ensures i <= |ms|
    ensures i < |ms| ==> ms[i].kind == kind
    ensures forall j :: 0 <= j < i ==> ms[j].kind != kind
  {
    if ms == [] || ms[0].kind == kind then 0 else 1 + FirstOfKind(ms[1..], kind)
  }

  lemma FirstOfKindIs(ms: seq<ModuleReg>, kind: int, i: nat)
    requires i <= |ms| && (i < |ms| ==> ms[i].kind == kind)
    requires forall j :: 0 <= j < i ==> ms[j].kind != kind
    ensures FirstOfKind(ms, kind) == i
  {
  }

  /** The modules without the first one of a kind; the others keep their order. */
  function Without(ms: seq<ModuleReg>, kind: int): seq<ModuleReg> {
    var i := FirstOfKind(ms, kind);
    if i < |ms| then ms[..i] + ms[i + 1..] else ms
  }

  /** The module `get_module` finds. */
  function Lookup(ms: seq<ModuleReg>, kind: int): ModuleReg? {
    var i := FirstOfKind(ms, kind);
    if i < |ms| then ms[i] else null
  }

  /** It finds nothing exactly when no module is of the kind, and else the first one that is. */
  lemma LookupIff(ms: seq<ModuleReg>, kind: int)
    ensures Lookup(ms, kind) == null <==> forall x <- ms :: x.kind != kind
    ensures Lookup(ms, kind) != null ==>
              exists i :: 0 <= i < |ms| && ms[i] == Lookup(ms, kind) && ms[i].kind == kind && forall j :: 0 <= j < i ==> ms[j].kind != kind
  {
    var i := FirstOfKind(ms, kind);
    assert i < |ms| ==> ms[i] in ms;
  }

  /** The same for a given index: what is found there, and what is left without it. */
  lemma FirstAt(ms: seq<ModuleReg>, kind: int, i: nat)
    requires i <= |ms| && (i < |ms| ==> ms[i].kind == kind)
    requires forall j :: 0 <= j < i ==> ms[j].kind != kind
    ensures Lookup(ms, kind) == if i < |ms| then ms[i] else null
    ensures Without(ms, kind) == if i < |ms| then ms[..i] + ms[i + 1..] else ms
  {
    FirstOfKindIs(ms, kind, i);
  }

  class Node {
    const reg: ModuleReg
    var next: Node?

    constructor (m: ModuleReg)
      ensures reg == m && next == null
    {
      reg := m;
      next := null;
    }
  }

  class List {
    var head: Node?
    ghost var nodes: seq<Node>

    /** The nodes are distinct and chained in order from `head` to null: no cycle, no sharing. */
    ghost predicate Valid()
      reads this, nodes
    {
      && (forall i, j :: 0 <= i < j < |nodes| ==> nodes[i] != nodes[j])
      && head == At(0)
      && forall i :: 0 <= i < |nodes| ==> nodes[i].next == At(i + 1)
    }

    ghost function At(i: nat): Node?
      reads this
    {
      if i < |nodes| then nodes[i] else null
    }

    /** The modules in list order. */
    ghost function Modules(): (ms: seq<ModuleReg>)
      reads this
      ensures |ms| == |nodes| && forall i :: 0 <= i < |ms| ==> ms[i] == nodes[i].reg
    {
      seq(|nodes|, i requires 0 <= i < |nodes| reads this => nodes[i].reg)
    }

    constructor ()
      ensures Valid() && Modules() == [] && nodes == []
    {
      head := null;
      nodes := [];
    }

    /** `add_module`: append at the end of the list. */
    method AddModule(m: ModuleReg)
      requires Valid()
      modifies this, nodes
      ensures Valid() && Modules() == old(Modules()) + [m]
    {
      var node := new Node(m);
      if head == null {
        head := node;
      } else {
        var prev, curr := head, head;
        ghost var i: nat := 0;
        while curr != null
          invariant i <= |nodes| && curr == At(i)
          invariant prev == nodes[if i == 0 then 0 else i - 1]
          decreases |nodes| - i
        {
          prev := curr;
          curr := curr.next;
          i := i + 1;
        }
        LinkLast(prev, node);
        return;
      }
      nodes := [node];
    }

    /** Link a node behind the last one. */
    method LinkLast(last: Node, node: Node)
      requires Valid() && nodes != [] && last == nodes[|nodes| - 1] && node !in nodes && node.next == null
      modifies this`nodes, last
      ensures Valid() && nodes == old(nodes) + [node]
    {
      last.next := node;
      nodes := nodes + [node];
    }

    /** Unlink the node at index `i`; `prev` is the one before it. */
    method Unlink(prev: Node?, curr: Node, ghost i: nat)
      requires Valid() && i < |nodes| && curr == nodes[i]
      requires prev == if i == 0 then null else nodes[i - 1]
      modifies this, nodes
      ensures Valid() && nodes == old(nodes[..i]) + old(nodes[i + 1..])
    {
      if prev != null {
        prev.next := curr.next;
      } else {
        head := head.next;
      }
      ghost var rest := nodes[..i] + nodes[i + 1..];
      assert forall j :: 0 <= j < |rest| ==> rest[j] == nodes[if j < i then j else j + 1];
      nodes := rest;
    }

    /** The same, for the modules in the list. */
    method UnlinkAt(prev: Node?, curr: Node, ghost i: nat)
      requires Valid() && i < |nodes| && curr == nodes[i]
      requires prev == if i == 0 then null else nodes[i - 1]
      modifies this, nodes
      ensures Valid() && Modules() == old(Modules()[..i]) + old(Modules()[i + 1..])
      ensures forall n <- nodes :: n in old(nodes)
    {
      Unlink(prev, curr, i);
    }

    /** Walk to the first node of a kind, with the one before it. */
    method FindKind(kind: int) returns (prev: Node?, curr: Node?, ghost i: nat)
      requires Valid()
      ensures i <= |nodes| && curr == At(i) && prev == if i == 0 then null else nodes[i - 1]
      ensures curr != null ==> nodes[i].reg.kind == kind
      ensures forall j :: 0 <= j < i ==> nodes[j].reg.kind != kind
    {
      prev, curr, i := null, head, 0;
      while curr != null
        invariant i <= |nodes| && curr == At(i) && prev == if i == 0 then null else nodes[i - 1]
        invariant forall j :: 0 <= j < i ==> nodes[j].reg.kind != kind
        decreases |nodes| - i
      {
        if curr.reg.kind == kind {
          break;
        }
        prev := curr;
        curr := curr.next;
        i := i + 1;
      }
    }

    /** `remove_module`: unlink the first node of a kind. */
    method RemoveModule(kind: int)
      requires Valid()
      modifies this, nodes
      ensures Valid() && Modules() == Without(old(Modules()), kind)
      ensures forall n <- nodes :: n in old(nodes)
    {
      ghost var ms := Modules();
      var prev, curr, i := FindKind(kind);
      FirstAt(ms, kind, i);
      if curr != null {
        UnlinkAt(prev, curr, i);
      }
    }

    /** `get_module`: the first module of a kind, or null. */
    method GetModule(kind: int) returns (m: ModuleReg?)
      requires Valid()
      ensures m == null <==> forall x <- Modules() :: x.kind != kind
      ensures m != null ==>
                exists i :: 0 <= i < |Modules()| && Modules()[i] == m && m.kind == kind && forall j :: 0 <= j < i ==> Modules()[j].kind != kind
      ensures m == Lookup(Modules(), kind)
    {
      var it := head;
      ghost var i: nat := 0;
      while it != null
        invariant i <= |nodes| && it == At(i)
        invariant forall j :: 0 <= j < i ==> Modules()[j].kind != kind
        decreases |nodes| - i
      {
        if it.reg.kind == kind {
          break;
        }
        it := it.next;
        i := i + 1;
      }
      FirstAt(Modules(), kind, i);
      LookupIff(Modules(), kind);
      if it != null {
        m := it.reg;
      } else {
        m := null;
      }
    }

    /** Walk to the node of one particular module. */
    method Find(m: ModuleReg) returns (found: bool)
      requires Valid()
      ensures found <==> m in Modules()
    {
      var it := head;
      ghost var i: nat := 0;
      while it != null
        invariant i <= |nodes| && it == At(i)
        invariant forall j :: 0 <= j < i ==> Modules()[j] != m
        decreases |nodes| - i
      {
        if it.reg == m {
          assert Modules()[i] == m;
          return true;
        }
        it := it.next;
        i := i + 1;
      }
      return false;
    }

    /** `increment_module_rc`: a module that is not in the list is left alone. */
    method IncrementRc(m: ModuleReg)
      requires Valid()
      modifies Modules()
      ensures m.refs == if m in Modules() then old(m.refs) + 1 else old(m.refs)
      ensures forall x <- Modules() :: x != m ==> x.refs == old(x.refs)
    {
      var found := Find(m);
      if found {
        m.refs := m.refs + 1;
      }
    }

    /** `decrement_module_rc`: never below zero. */
    method DecrementRc(m: ModuleReg)
      requires Valid()
      modifies Modules()
      ensures m.refs == if m in Modules() && old(m.refs) > 0 then old(m.refs) - 1 else old(m.refs)
      ensures forall x <- Modules() :: x != m ==> x.refs == old(x.refs)
    {
      var found := Find(m);
      if found {
        if m.refs > 0 {
          m.refs := m.refs - 1;
        }
      }
    }
  }

  // ----- what the sequence operations promise

  ghost predicate UniqueKinds(ms: seq<ModuleReg>) {
    forall i, j :: 0 <= i < j < |ms| ==> ms[i].kind != ms[j].kind
  }

  lemma LookupFinds(ms: seq<ModuleReg>, m: ModuleReg)
    requires UniqueKinds(ms) && m in ms
    ensures Lookup(ms, m.kind) == m
  {
    var i :| 0 <= i < |ms| && ms[i] == m;
    FirstOfKindIs(ms, m.kind, i);
  }

  /** With unique kinds, removal by kind takes out exactly the one module. */
  lemma WithoutIs(ms: seq<ModuleReg>, m: ModuleReg)
    requires UniqueKinds(ms) && m in ms
    ensures UniqueKinds(Without(ms, m.kind))
    ensures forall x :: x in Without(ms, m.kind) <==> x in ms && x != m
  {
    var i := FirstOfKind(ms, m.kind);
    LookupFinds(ms, m);
    var rest := Without(ms, m.kind);
    forall x ensures x in rest <==> x in ms && x != m {
      if x in ms && x != m {
        var j :| 0 <= j < |ms| && ms[j] == x;
        assert x == rest[if j < i then j else j - 1];
      }
      if x in rest {
        var j :| 0 <= j < |rest| && rest[j] == x;
        assert x == ms[if j < i then j else j + 1];
      }
    }
  }
}
