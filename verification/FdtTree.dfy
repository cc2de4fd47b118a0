/** A device tree and its flattening into a structure block, after section 5.4
    of the Devicetree Specification v0.4: properties before children, FDT_NOP
    tokens anywhere, every token aligned to four bytes. */
module FdtTree {
  import opened Words

  const BEGIN_NODE: nat := 1
  const END_NODE: nat := 2
  const PROP: nat := 3
  const NOP: nat := 4
  const END: nat := 9

  datatype Prop = Prop(nameoff: u32, value: seq<u8>)

  datatype Attr = Own(prop: Prop) | Skip

  datatype Tree = Tree(name: seq<u8>, attrs: seq<Attr>, kids: Forest)

  /** Children of a node, or what stands at the top, with FDT_NOPs between. */
  datatype Forest = Empty | Pad(rest: Forest) | Cons(head: Tree, tail: Forest)

  // ---- Flattening ----

  function Be32Bytes(n: nat): (r: seq<u8>)
    ensures |r| == 4
  {
    [n / 0x100_0000 % 0x100, n / 0x1_0000 % 0x100, n / 0x100 % 0x100, n % 0x100]
  }

  /** Zeros up to the next multiple of four. */
  function Filler(n: nat): (r: seq<u8>)
    ensures |r| < 4 && (n + |r|) % 4 == 0
    ensures forall i :: 0 <= i < |r| ==> r[i] == 0
  {
    if n % 4 == 0 then [] else if n % 4 == 1 then [0, 0, 0] else if n % 4 == 2 then [0, 0] else [0]
  }

  function BeginBytes(name: seq<u8>): seq<u8> {
    Be32Bytes(BEGIN_NODE) + name + [0] + Filler(|name| + 1)
  }

  function PropBytes(p: Prop): seq<u8> {
    Be32Bytes(PROP) + Be32Bytes(|p.value|) + Be32Bytes(p.nameoff) + p.value + Filler(|p.value|)
  }

  function AttrBytes(a: Attr): seq<u8> {
    match a
    case Own(p) => PropBytes(p)
    case Skip => Be32Bytes(NOP)
  }

  function AttrsBytes(attrs: seq<Attr>): seq<u8> {
    if attrs == [] then [] else AttrBytes(attrs[0]) + AttrsBytes(attrs[1..])
  }

  function TreeBytes(t: Tree): seq<u8> {
    BeginBytes(t.name) + (AttrsBytes(t.attrs) + (ForestBytes(t.kids) + Be32Bytes(END_NODE)))
  }

  function ForestBytes(f: Forest): seq<u8> {
    match f
    case Empty => []
    case Pad(rest) => Be32Bytes(NOP) + ForestBytes(rest)
    case Cons(t, rest) => TreeBytes(t) + ForestBytes(rest)
  }

  // ---- Nodes in preorder ----

  datatype Visit = Visit(off: nat, tree: Tree)

  /** Every node of a forest in preorder, with the offset its flattening starts
      at when the forest's starts at `off`. */
  function Preorder(f: Forest, off: nat): seq<Visit> {
    match f
    case Empty => []
    case Pad(rest) => Preorder(rest, off + 4)
    case Cons(t, rest) =>
      [Visit(off, t)]
      + (Preorder(t.kids, off + |BeginBytes(t.name)| + |AttrsBytes(t.attrs)|)
         + Preorder(rest, off + |TreeBytes(t)|))
  }

  ghost predicate HasAt(s: seq<u8>, at: int, x: seq<u8>) {
    0 <= at && at + |x| <= |s| && s[at..at + |x|] == x
  }

  /** A node is listed at the place where its own flattening starts. */
  lemma {:induction false} PreorderOffsets(f: Forest, off: nat, k: nat)
    requires k < |Preorder(f, off)|
    ensures HasAt(ForestBytes(f), Preorder(f, off)[k].off - off, TreeBytes(Preorder(f, off)[k].tree))
  {
    hide TreeBytes, AttrsBytes, HasAt, Be32Bytes, BeginBytes;
    var v := Preorder(f, off)[k];
    match f
    case Empty =>
    case Pad(rest) =>
      PreorderOffsets(rest, off + 4, k);
      Inside(Be32Bytes(NOP), ForestBytes(rest), [], v.off - off - 4, TreeBytes(v.tree));
      assert ForestBytes(f) == Be32Bytes(NOP) + ForestBytes(rest) + [];
    case Cons(t, rest) =>
      var kidsAt := off + |BeginBytes(t.name)| + |AttrsBytes(t.attrs)|;
      var kids, tail := Preorder(t.kids, kidsAt), Preorder(rest, off + |TreeBytes(t)|);
      if k == 0 {
        Starts(TreeBytes(t), ForestBytes(rest));
      } else if k - 1 < |kids| {
        assert v == kids[k - 1];
        PreorderOffsets(t.kids, kidsAt, k - 1);
        KidPlace(t, rest, v.off - kidsAt, TreeBytes(v.tree));
      } else {
        assert v == tail[k - 1 - |kids|];
        PreorderOffsets(rest, off + |TreeBytes(t)|, k - 1 - |kids|);
        Inside(TreeBytes(t), ForestBytes(rest), [], v.off - off - |TreeBytes(t)|, TreeBytes(v.tree));
        assert TreeBytes(t) + ForestBytes(rest) + [] == ForestBytes(f);
      }
  }

  lemma KidPlace(t: Tree, rest: Forest, at: int, x: seq<u8>)
    requires HasAt(ForestBytes(t.kids), at, x)
    ensures HasAt(ForestBytes(Cons(t, rest)), |BeginBytes(t.name)| + |AttrsBytes(t.attrs)| + at, x)
  {
    hide TreeBytes, AttrsBytes, HasAt, Be32Bytes, BeginBytes;
    var pre, post := BeginBytes(t.name) + AttrsBytes(t.attrs), Be32Bytes(END_NODE) + ForestBytes(rest);
    Inside(pre, ForestBytes(t.kids), post, at, x);
    TreeAround(t, rest);
  }

  lemma TreeAround(t: Tree, rest: Forest)
    ensures TreeBytes(t) + ForestBytes(rest) ==
            BeginBytes(t.name) + AttrsBytes(t.attrs) + ForestBytes(t.kids) + (Be32Bytes(END_NODE) + ForestBytes(rest))
  {
    hide Be32Bytes, BeginBytes;
    var b, a, k, e, f := BeginBytes(t.name), AttrsBytes(t.attrs), ForestBytes(t.kids), Be32Bytes(END_NODE), ForestBytes(rest);
    assert (b + (a + (k + e))) + f == b + a + k + (e + f);
  }

  lemma Starts(x: seq<u8>, y: seq<u8>)
    ensures HasAt(x + y, 0, x)
  {}

  lemma Inside(pre: seq<u8>, s: seq<u8>, post: seq<u8>, at: int, x: seq<u8>)
    requires HasAt(s, at, x)
    ensures HasAt(pre + s + post, |pre| + at, x)
  {
    assert (pre + s + post)[|pre| + at..|pre| + at + |x|] == s[at..at + |x|];
  }

  // ---- What is left of a block in the middle of a walk ----

  /** Either the rest of the top level, then FDT_END; or the rest of a node,
      its FDT_END_NODE, and what follows it. */
  datatype Rest = Top(forest: Forest) | In(attrs: seq<Attr>, forest: Forest, up: Rest)

  function RestBytes(r: Rest): seq<u8> {
    match r
    case Top(f) => ForestBytes(f) + Be32Bytes(END)
    case In(attrs, f, up) => AttrsBytes(attrs) + (ForestBytes(f) + (Be32Bytes(END_NODE) + RestBytes(up)))
  }

  function ForestHead(f: Forest, last: nat): nat {
    match f
    case Empty => last
    case Pad(_) => NOP
    case Cons(_, _) => BEGIN_NODE
  }

  /** The token a rest starts with. */
  function Head(r: Rest): nat {
    match r
    case Top(f) => ForestHead(f, END)
    case In(attrs, f, _) =>
      if attrs == [] then ForestHead(f, END_NODE) else if attrs[0].Own? then PROP else NOP
  }

  function HeadBytes(r: Rest): seq<u8> {
    if Head(r) == PROP then PropBytes(r.attrs[0].prop)
    else if Head(r) == BEGIN_NODE then BeginBytes(r.forest.head.name)
    else Be32Bytes(Head(r))
  }

  /** What is left after that token. */
  function Tail(r: Rest): Rest
    requires Head(r) != END
  {
    if r.In? && r.attrs != [] then r.(attrs := r.attrs[1..])
    else match r.forest
      case Empty => r.up
      case Pad(rest) => r.(forest := rest)
      case Cons(t, rest) => In(t.attrs, t.kids, r.(forest := rest))
  }

  lemma RestStep(r: Rest)
    requires Head(r) != END
    ensures RestBytes(r) == HeadBytes(r) + RestBytes(Tail(r))
  {
    hide Be32Bytes, BeginBytes, PropBytes;
    if r.In? && r.attrs != [] {
    } else if r.forest.Cons? {
      var t, rest := r.forest.head, r.forest.tail;
      var b, a, k, e, f := BeginBytes(t.name), AttrsBytes(t.attrs), ForestBytes(t.kids), Be32Bytes(END_NODE), ForestBytes(rest);
      var u := if r.Top? then Be32Bytes(END) else Be32Bytes(END_NODE) + RestBytes(r.up);
      assert ForestBytes(r.forest) == (b + (a + (k + e))) + f;
      assert RestBytes(r) == ForestBytes(r.forest) + u;
      assert RestBytes(Tail(r)) == a + (k + (e + RestBytes(r.(forest := rest))));
      assert RestBytes(r.(forest := rest)) == f + u;
      Regroup(b, a, k, e, f, u);
    }
  }

  lemma Regroup(b: seq<u8>, a: seq<u8>, k: seq<u8>, e: seq<u8>, f: seq<u8>, u: seq<u8>)
    ensures ((b + (a + (k + e))) + f) + u == b + (a + (k + (e + (f + u))))
  {}

  /** The nodes still to come. */
  function Ahead(r: Rest, off: nat): seq<Visit> {
    match r
    case Top(f) => Preorder(f, off)
    case In(attrs, f, up) =>
      Preorder(f, off + |AttrsBytes(attrs)|) + Ahead(up, off + |AttrsBytes(attrs)| + |ForestBytes(f)| + 4)
  }

  /** A token opens at most one node. */
  lemma AheadStep(r: Rest, off: nat)
    requires Head(r) != END
    ensures Ahead(r, off) ==
            (if Head(r) == BEGIN_NODE then [Visit(off, r.forest.head)] else [])
            + Ahead(Tail(r), off + |HeadBytes(r)|)
  {
    hide Be32Bytes, BeginBytes, PropBytes;
    if r.In? && r.attrs != [] {
      assert |AttrsBytes(r.attrs)| == |AttrBytes(r.attrs[0])| + |AttrsBytes(r.attrs[1..])|;
    } else if r.forest.Cons? {
      var t, rest := r.forest.head, r.forest.tail;
      var kids := off + |BeginBytes(t.name)| + |AttrsBytes(t.attrs)|;
      var after := kids + |ForestBytes(t.kids)| + 4;
      assert after == off + |TreeBytes(t)|;
      assert Ahead(Tail(r), off + |HeadBytes(r)|) == Preorder(t.kids, kids) + Ahead(r.(forest := rest), after);
      if r.In? {
        assert Ahead(r.(forest := rest), after)
          == Preorder(rest, after) + Ahead(r.up, after + |ForestBytes(rest)| + 4);
        assert |ForestBytes(r.forest)| == |TreeBytes(t)| + |ForestBytes(rest)|;
      }
    }
  }
}
