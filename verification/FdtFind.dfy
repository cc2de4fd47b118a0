/** The searches of src/fdt.c, src/smp.c and src/virtio.c, each one a loop over
    the tokens of a block. */
module FdtFind {
  import opened Words
  import opened FdtTree
  import opened FdtWalk

  const VIRTIO_MMIO: seq<u8> := [118, 105, 114, 116, 105, 111, 44, 109, 109, 105, 111]
  const REG: seq<u8> := [114, 101, 103]

  /** skip_prop. */
  function SkipProp(blob: seq<u8>, off: nat): nat
    requires off + 8 <= |blob|
  {
    off + 12 + (Be32(blob, off + 4) + 3) / 4 * 4
  }

  lemma PropSkipped(fdt: Fdt, off: nat, r: Rest)
    requires Stands(fdt, off, r) && Head(r) == PROP
    ensures off + 8 <= |fdt.blob| && SkipProp(fdt.blob, off) == off + |HeadBytes(r)|
    ensures Stands(fdt, off + |HeadBytes(r)|, Tail(r))
  {
    hide Be32, Stands, HeadBytes, Tail, Head, ValueAt;
    PropAt(fdt, off, r);
    Step(fdt, off, r);
  }

  /** The tokens that are only skipped. */
  lemma Skipped(fdt: Fdt, off: nat, r: Rest)
    requires Stands(fdt, off, r) && Head(r) != BEGIN_NODE && Head(r) != END
    ensures Head(r) == PROP || |HeadBytes(r)| == 4
    ensures Stands(fdt, off + |HeadBytes(r)|, Tail(r))
    ensures Ahead(r, off) == Ahead(Tail(r), off + |HeadBytes(r)|)
  {
    hide Stands, Tail, Ahead, PropBytes;
    Step(fdt, off, r);
    AheadStep(r, off);
  }

  /** A node is next. */
  lemma Entered(fdt: Fdt, off: nat, r: Rest)
    requires Stands(fdt, off, r) && Head(r) == BEGIN_NODE
    ensures var vs := Ahead(r, off);
      vs != [] && vs[0] == Visit(off, r.forest.head) && vs[1..] == Ahead(Tail(r), off + |HeadBytes(r)|)
    ensures |HeadBytes(r)| >= 4
  {
    hide Stands, Tail, Ahead, BeginBytes;
    HeadAligned(r);
    AheadStep(r, off);
  }

  lemma AllSeen(r: Rest, off: nat)
    requires Head(r) == END
    ensures Ahead(r, off) == []
  {}

  /** fdt_node_prop: a property of this node, never of a descendant. */
  method NodeProp(fdt: Fdt, nodeOff: nat, name: seq<u8>, ghost r: Rest) returns (at: Option<nat>, len: nat)
    requires Stands(fdt, nodeOff, r) && Head(r) == BEGIN_NODE && 0 !in name
    ensures var p := FindProp(fdt.strings, r.forest.head.attrs, name);
      at.Some? <==> p.Some?
    ensures var p := FindProp(fdt.strings, r.forest.head.attrs, name);
      p.Some? ==> len == |p.value.value| && ValueAt(fdt.blob, at.value, p.value.value)
  {
    hide HeadBytes, RestBytes, GoodRest, Be32, ValueAt, CString, Terminated;
    ghost var want := FindProp(fdt.strings, r.forest.head.attrs, name);
    var off := SkipName(fdt, nodeOff, r);
    ghost var cur := Tail(r);
    at, len := None, 0;
    while off < |fdt.blob|
      invariant Stands(fdt, off, cur) && cur.In? && FindProp(fdt.strings, cur.attrs, name) == want
      decreases |fdt.blob| - off
    {
      TokenAt(fdt, off, cur);
      var tok := Be32(fdt.blob, off);
      if tok == BEGIN_NODE || tok == END_NODE || tok == END { break; }
      Skipped(fdt, off, cur);
      if tok == NOP {
        off := off + 4;
        cur := Tail(cur);
        continue;
      }
      if tok == PROP {
        PropHere(fdt, off, cur);
        var plen := Be32(fdt.blob, off + 4);
        var nameoff := Be32(fdt.blob, off + 8);
        var eq := StrEq(fdt.strings, nameoff, name);
        if eq {
          at, len := Some(off + 12), plen;
          return;
        }
        off := off + (12 + (plen + 3) / 4 * 4);
        cur := Tail(cur);
        continue;
      }
      break;
    }
    StandsBefore(fdt, off, cur);
  }

  lemma StandsBefore(fdt: Fdt, off: nat, r: Rest)
    requires Stands(fdt, off, r)
    ensures off < |fdt.blob|
  {
    TokenAt(fdt, off, r);
  }

  lemma PropHere(fdt: Fdt, off: nat, r: Rest)
    requires Stands(fdt, off, r) && Head(r) == PROP
    ensures var p := r.attrs[0].prop;
      off + 12 <= |fdt.blob| && Be32(fdt.blob, off + 4) == |p.value| && Be32(fdt.blob, off + 8) == p.nameoff
      && ValueAt(fdt.blob, off + 12, p.value) && |HeadBytes(r)| == 12 + (|p.value| + 3) / 4 * 4
      && Terminated(fdt.strings, p.nameoff)
  {
    hide HeadBytes, RestBytes, Be32, ValueAt, Terminated;
    PropAt(fdt, off, r);
  }

  /** fdt_find_compatible: the first node in preorder whose compatible strings
      include the target, or UINT32_MAX when there is none. */
  method FindCompatible(fdt: Fdt, compat: seq<u8>, ghost f: Forest) returns (node: nat)
    requires Flattens(fdt, f) && 0 !in compat
    ensures node == FirstOf(fdt.strings, Preorder(f, 0), Compatible(compat))
  {
    hide HeadBytes, RestBytes, Stands, Tail, Be32, Ahead, Preorder, ValueAt, Listed, FindProp, Flattens;
    ghost var q := Compatible(compat);
    var off := 0;
    ghost var cur := Top(f);
    StandsAtStart(fdt, f);
    AheadAtStart(f);
    while off < |fdt.blob|
      invariant Stands(fdt, off, cur)
      invariant FirstOf(fdt.strings, Preorder(f, 0), q) == FirstOf(fdt.strings, Ahead(cur, off), q)
      decreases |fdt.blob| - off
    {
      TokenAt(fdt, off, cur);
      var tok := Be32(fdt.blob, off);
      if tok == BEGIN_NODE {
        Entered(fdt, off, cur);
        var list, len := NodeProp(fdt, off, COMPATIBLE, cur);
        if list.Some? {
          var listed := ListHas(fdt.blob, list.value, len, compat,
                                FindProp(fdt.strings, cur.forest.head.attrs, COMPATIBLE).value.value);
          if listed { return off; }
        }
        off := SkipName(fdt, off, cur);
        cur := Tail(cur);
      } else if tok == END_NODE || tok == NOP {
        Skipped(fdt, off, cur);
        off := off + 4;
        cur := Tail(cur);
      } else if tok == PROP {
        Skipped(fdt, off, cur);
        PropSkipped(fdt, off, cur);
        off := SkipProp(fdt.blob, off);
        cur := Tail(cur);
      } else {
        AllSeen(cur, off);
        return NOWHERE;
      }
    }
    StandsBefore(fdt, off, cur);
    node := NOWHERE;
  }

  lemma AheadAtStart(f: Forest)
    ensures Ahead(Top(f), 0) == Preorder(f, 0)
  {}

  /** The name of the node at off is `name`, up to a unit address. */
  method NameIs(fdt: Fdt, off: nat, name: seq<u8>, ghost r: Rest) returns (same: bool)
    requires Stands(fdt, off, r) && Head(r) == BEGIN_NODE && 0 !in name
    ensures same <==> Meets(fdt.strings, r.forest.head, Named(name))
  {
    hide HeadBytes, RestBytes;
    ghost var full := r.forest.head.name;
    NameAt(fdt, off, r);
    NameHasNoZero(fdt, r);
    CharsAt(fdt.blob, off + 4, full);
    var n, k := off + 4, 0;
    while k < |name| && name[k] == fdt.blob[n + k]
      invariant k <= |name| && k <= |full| && name[..k] == full[..k]
      decreases |name| - k
    {
      assert k < |full| ==> fdt.blob[n + k] == full[k];
      k := k + 1;
    }
    same := k == |name| && (fdt.blob[n + k] == 0 || fdt.blob[n + k] == AT_SIGN);
    assert k < |full| ==> fdt.blob[n + k] == full[k];
  }

  lemma CharsAt(s: seq<u8>, at: nat, x: seq<u8>)
    requires HasAt(s, at, x)
    ensures forall i :: at <= i < at + |x| ==> s[i] == x[i - at]
  {
    forall i | at <= i < at + |x| ensures s[i] == x[i - at] {
      assert s[i] == s[at..at + |x|][i - at];
    }
  }

  /** fdt_find_node_named. */
  method FindNodeNamed(fdt: Fdt, name: seq<u8>, ghost f: Forest) returns (node: nat)
    requires Flattens(fdt, f) && 0 !in name
    ensures node == FirstOf(fdt.strings, Preorder(f, 0), Named(name))
  {
    hide HeadBytes, RestBytes, Stands, Tail, Be32, Ahead, Preorder, Meets, Flattens;
    ghost var q := Named(name);
    var off := 0;
    ghost var cur := Top(f);
    StandsAtStart(fdt, f);
    AheadAtStart(f);
    while off < |fdt.blob|
      invariant Stands(fdt, off, cur)
      invariant FirstOf(fdt.strings, Preorder(f, 0), q) == FirstOf(fdt.strings, Ahead(cur, off), q)
      decreases |fdt.blob| - off
    {
      TokenAt(fdt, off, cur);
      var tok := Be32(fdt.blob, off);
      if tok == BEGIN_NODE {
        Entered(fdt, off, cur);
        var same := NameIs(fdt, off, name, cur);
        if same { return off; }
        off := SkipName(fdt, off, cur);
        cur := Tail(cur);
      } else if tok == END_NODE || tok == NOP {
        Skipped(fdt, off, cur);
        off := off + 4;
        cur := Tail(cur);
      } else if tok == PROP {
        Skipped(fdt, off, cur);
        PropSkipped(fdt, off, cur);
        off := SkipProp(fdt.blob, off);
        cur := Tail(cur);
      } else {
        AllSeen(cur, off);
        return NOWHERE;
      }
    }
    StandsBefore(fdt, off, cur);
    node := NOWHERE;
  }

  /** count_cpu_nodes. */
  method CountCpuNodes(fdt: Fdt, ghost f: Forest) returns (count: nat)
    requires Flattens(fdt, f)
    ensures count == CountOf(fdt.strings, Preorder(f, 0), DeviceType(CPU))
  {
    hide HeadBytes, RestBytes, Stands, Tail, Be32, Ahead, Preorder, ValueAt, FindProp, Flattens, CString;
    ghost var q := DeviceType(CPU);
    var off := 0;
    count := 0;
    ghost var cur := Top(f);
    StandsAtStart(fdt, f);
    AheadAtStart(f);
    while off < |fdt.blob|
      invariant Stands(fdt, off, cur)
      invariant CountOf(fdt.strings, Preorder(f, 0), q) == count + CountOf(fdt.strings, Ahead(cur, off), q)
      decreases |fdt.blob| - off
    {
      TokenAt(fdt, off, cur);
      var tok := Be32(fdt.blob, off);
      if tok == BEGIN_NODE {
        Entered(fdt, off, cur);
        var dt, len := NodeProp(fdt, off, DEVICE_TYPE, cur);
        if dt.Some? {
          SameString(fdt.blob, dt.value, FindProp(fdt.strings, cur.forest.head.attrs, DEVICE_TYPE).value.value, 0);
          var cpu := StrEq(fdt.blob, dt.value, CPU);
          if cpu { count := count + 1; }
        }
        off := SkipName(fdt, off, cur);
        cur := Tail(cur);
      } else if tok == END_NODE || tok == NOP {
        Skipped(fdt, off, cur);
        off := off + 4;
        cur := Tail(cur);
      } else if tok == PROP {
        Skipped(fdt, off, cur);
        PropSkipped(fdt, off, cur);
        off := SkipProp(fdt.blob, off);
        cur := Tail(cur);
      } else {
        AllSeen(cur, off);
        return;
      }
    }
    StandsBefore(fdt, off, cur);
  }

  /** Every node listed stands in the block where it is listed. */
  lemma NodesStand(fdt: Fdt, f: Forest, k: nat)
    requires Flattens(fdt, f) && k < |Preorder(f, 0)|
    ensures Preorder(f, 0)[k].off < NOWHERE
    ensures HasAt(fdt.blob, Preorder(f, 0)[k].off, TreeBytes(Preorder(f, 0)[k].tree))
  {
    hide GoodForest, Preorder, TreeBytes, ForestBytes, Be32Bytes;
    PreorderOffsets(f, 0, k);
    Starts(ForestBytes(f), Be32Bytes(END));
    HasWithin(fdt.blob, 0, ForestBytes(f), Preorder(f, 0)[k].off, TreeBytes(Preorder(f, 0)[k].tree));
  }

  /** What the two searches return, said on the tree: UINT32_MAX exactly when
      no node meets the query, and otherwise the place of the first in preorder
      that does. */
  lemma FirstNode(fdt: Fdt, f: Forest, q: Query)
    requires Flattens(fdt, f)
    ensures var vs, r := Preorder(f, 0), FirstOf(fdt.strings, Preorder(f, 0), q);
      r == NOWHERE <==> forall k :: 0 <= k < |vs| ==> !Meets(fdt.strings, vs[k].tree, q)
    ensures var vs, r := Preorder(f, 0), FirstOf(fdt.strings, Preorder(f, 0), q);
      r != NOWHERE ==>
        exists k :: 0 <= k < |vs| && vs[k].off == r && Meets(fdt.strings, vs[k].tree, q)
                    && HasAt(fdt.blob, r, TreeBytes(vs[k].tree))
                    && forall j :: 0 <= j < k ==> !Meets(fdt.strings, vs[j].tree, q)
  {
    hide Flattens, Preorder, Meets, HasAt, FirstOf, TreeBytes;
    var vs := Preorder(f, 0);
    forall k | 0 <= k < |vs|
      ensures vs[k].off < NOWHERE && HasAt(fdt.blob, vs[k].off, TreeBytes(vs[k].tree))
    {
      NodesStand(fdt, f, k);
    }
    FirstOfIsFirst(fdt.strings, vs, q);
  }

  // ---- virtio_find_fdt ----

  function Be64(s: seq<u8>, off: nat): nat
    requires off + 8 <= |s|
  {
    Be32(s, off) * 0x1_0000_0000 + Be32(s, off + 4)
  }

  /** Two words are the value of their eight bytes, highest first. */
  lemma Be64IsBigEndian(s: seq<u8>, off: nat)
    requires off + 8 <= |s|
    ensures Be64(s, off) == BigEndian(s[off..off + 8])
  {
    Be32IsBigEndian(s, off);
    Be32IsBigEndian(s, off + 4);
    JoinBigEndian(s[off..off + 4], s[off + 4..off + 8]);
    assert s[off..off + 4] + s[off + 4..off + 8] == s[off..off + 8];
  }

  lemma JoinBigEndian(a: seq<u8>, b: seq<u8>)
    requires |b| == 4
    ensures BigEndian(a + b) == BigEndian(a) * 0x1_0000_0000 + BigEndian(b)
  {
    EmptyIsZero();
    hide BigEndian;
    var b3, b2, b1 := b[..3], b[..2], b[..1];
    AppendByte(a, [], b[0]);
    AppendByte(a, b1, b[1]);
    AppendByte(a, b2, b[2]);
    AppendByte(a, b3, b[3]);
    assert [] + [b[0]] == b1 && b1 + [b[1]] == b2 && b2 + [b[2]] == b3 && b3 + [b[3]] == b;
    assert a + [] == a;
  }

  lemma EmptyIsZero()
    ensures BigEndian([]) == 0
  {}

  lemma AppendByte(a: seq<u8>, b: seq<u8>, x: u8)
    ensures BigEndian(a + (b + [x])) == BigEndian(a + b) * 0x100 + x
    ensures BigEndian(b + [x]) == BigEndian(b) * 0x100 + x
  {
    assert (a + (b + [x]))[..|a| + |b|] == a + b;
    assert (b + [x])[..|b|] == b;
  }

  /** Address and size in entry idx of the node's reg, of two cells each. */
  ghost function Reg(strings: seq<u8>, t: Tree, idx: nat): Option<(nat, nat)> {
    var p := FindProp(strings, t.attrs, REG);
    if p.Some? && |p.value.value| >= (idx + 1) * 16
    then Some((BigEndian(p.value.value[16 * idx..16 * idx + 8]), BigEndian(p.value.value[16 * idx + 8..16 * idx + 16])))
    else None
  }

  /** The 32-bit test for the entry's being there. */
  predicate BeyondReg(idx: u32, len: u32) { (idx + 1) * 16 % 0x1_0000_0000 > len }

  /** The test is right for all lengths exactly where its product does not
      wrap around. */
  lemma BeyondRegIff(idx: u32)
    ensures (forall len: u32 :: BeyondReg(idx, len) <==> (idx + 1) * 16 > len) <==> (idx + 1) * 16 < 0x1_0000_0000
  {
    var end := (idx + 1) * 16;
    if end >= 0x1_0000_0000 {
      var len: u32 := end % 0x1_0000_0000;
      assert !BeyondReg(idx, len) && end > len;
    } else {
      assert end % 0x1_0000_0000 == end;
      forall len: u32 ensures BeyondReg(idx, len) <==> end > len {}
    }
  }

  /** A virtio-mmio node whose device is wanted. */
  ghost predicate Wanted(strings: seq<u8>, t: Tree, accept: nat -> bool) {
    Meets(strings, t, Compatible(VIRTIO_MMIO)) && Reg(strings, t, 0).Some? && accept(Reg(strings, t, 0).value.0)
  }

  ghost function FirstWanted(strings: seq<u8>, vs: seq<Visit>, accept: nat -> bool): nat {
    if vs == [] then 0
    else if Wanted(strings, vs[0].tree, accept) then Reg(strings, vs[0].tree, 0).value.0
    else FirstWanted(strings, vs[1..], accept)
  }

  lemma SameBe32(s: seq<u8>, at: nat, value: seq<u8>, i: nat)
    requires HasAt(s, at, value) && i + 4 <= |value|
    ensures Be32(s, at + i) == Be32(value, i)
  {
    CharsAt(s, at, value);
  }

  /** The address returned is that of the first wanted node in preorder; 0 is
      returned exactly when there is none, or the address itself is 0. */
  lemma {:induction false} FirstWantedIsFirst(strings: seq<u8>, vs: seq<Visit>, accept: nat -> bool)
    ensures var r := FirstWanted(strings, vs, accept);
      (r == 0 && forall k :: 0 <= k < |vs| ==> !Wanted(strings, vs[k].tree, accept))
      || exists k :: 0 <= k < |vs| && Wanted(strings, vs[k].tree, accept) && r == Reg(strings, vs[k].tree, 0).value.0
                     && forall j :: 0 <= j < k ==> !Wanted(strings, vs[j].tree, accept)
  {
    hide Reg, Meets;
    if vs != [] && !Wanted(strings, vs[0].tree, accept) {
      var rest := vs[1..];
      FirstWantedIsFirst(strings, rest, accept);
      assert forall j :: 0 < j < |vs| ==> vs[j] == rest[j - 1];
      if k :| 0 <= k < |rest| && Wanted(strings, rest[k].tree, accept)
              && FirstWanted(strings, rest, accept) == Reg(strings, rest[k].tree, 0).value.0
              && forall j :: 0 <= j < k ==> !Wanted(strings, rest[j].tree, accept) {
        assert vs[k + 1] == rest[k];
      }
    }
  }

  lemma NamesSpelled()
    ensures VIRTIO_MMIO == Ascii("virtio,mmio") && REG == Ascii("reg")
  {}

  lemma SameBe64(s: seq<u8>, at: nat, value: seq<u8>, i: nat)
    requires HasAt(s, at, value) && i + 8 <= |value|
    ensures Be64(s, at + i) == Be64(value, i)
  {
    hide Be32;
    SameBe32(s, at, value, i);
    SameBe32(s, at, value, i + 4);
  }

  /** fdt_node_reg64, for every entry number whose end the 32-bit test can
      express. */
  method NodeReg(fdt: Fdt, nodeOff: nat, idx: u32, ghost r: Rest) returns (at: Option<(nat, nat)>)
    requires Stands(fdt, nodeOff, r) && Head(r) == BEGIN_NODE && (idx + 1) * 16 < 0x1_0000_0000
    ensures at == Reg(fdt.strings, r.forest.head, idx)
  {
    hide Stands, Be32, Be64, BigEndian, FindProp, CString;
    var reg, len := NodeProp(fdt, nodeOff, REG, r);
    if reg.None? { return None; }
    if (idx + 1) * 16 % 0x1_0000_0000 > len { return None; }
    ghost var value := FindProp(fdt.strings, r.forest.head.attrs, REG).value.value;
    var off := idx * 16;
    SameBe64(fdt.blob, reg.value, value, off);
    SameBe64(fdt.blob, reg.value, value, off + 8);
    Be64IsBigEndian(value, off);
    Be64IsBigEndian(value, off + 8);
    at := Some((Be64(fdt.blob, reg.value + off), Be64(fdt.blob, reg.value + off + 8)));
  }

  /** The needle stands at i, compared byte by byte and then for the NUL. */
  method NeedleAt(s: seq<u8>, i: nat, needle: seq<u8>) returns (eq: bool)
    requires Terminated(s, i) && 0 !in needle
    ensures eq <==> CString(s, i) == needle
  {
    ghost var end :| i <= end < |s| && s[end] == 0;
    eq := true;
    var k := 0;
    while k < |needle|
      invariant k <= |needle| && eq && i + k <= end
      invariant CString(s, i) == needle[..k] + CString(s, i + k)
    {
      if s[i + k] != needle[k] {
        Compare(needle, k, CString(s, i + k));
        return false;
      }
      assert needle[..k + 1] == needle[..k] + [needle[k]];
      k := k + 1;
    }
    Compare(needle, k, CString(s, i + k));
    eq := s[i + |needle|] == 0;
  }

  /** The loop of virtio_find_fdt over the strings of a compatible property. */
  method ListHasNeedle(blob: seq<u8>, cp: nat, clen: nat, ghost value: seq<u8>) returns (isVirtio: bool)
    requires ValueAt(blob, cp, value) && clen == |value|
    ensures isVirtio <==> Listed(value, VIRTIO_MMIO)
  {
    hide CString;
    isVirtio := false;
    var p := 0;
    while p < clen
      invariant p < clen ==> p == 0 || value[p - 1] == 0
      invariant !isVirtio && forall j: nat :: j < p ==> !ListedAt(value, j, VIRTIO_MMIO)
      decreases clen - p
    {
      SameString(blob, cp, value, p);
      var eq := NeedleAt(blob, cp + p, VIRTIO_MMIO);
      if eq {
        assert ListedAt(value, p, VIRTIO_MMIO);
        isVirtio := true;
        break;
      }
      p := NextString(blob, cp, clen, p, value);
    }
  }

  /** Past the string at p and its NUL: no string starts before. */
  method NextString(blob: seq<u8>, cp: nat, clen: nat, p0: nat, ghost value: seq<u8>) returns (p: nat)
    requires ValueAt(blob, cp, value) && clen == |value| && p0 < clen
    ensures p0 < p && (p < clen ==> value[p - 1] == 0)
    ensures forall j: nat, t: seq<u8> :: p0 < j < p ==> !ListedAt(value, j, t)
  {
    CharsAt(blob, cp, value);
    p := p0;
    while p < clen && blob[cp + p] != 0
      invariant p0 <= p <= clen
      invariant forall j :: p0 <= j < p ==> value[j] != 0
    {
      assert blob[cp + p] == value[p];
      p := p + 1;
    }
    assert p < clen ==> blob[cp + p] == value[p];
    p := p + 1;
  }

  /** What the walk does at a node: the address of its device, if that is what
      is looked for. */
  method Probe(fdt: Fdt, nodeOff: nat, accept: nat -> bool, ghost r: Rest) returns (hit: Option<nat>)
    requires Stands(fdt, nodeOff, r) && Head(r) == BEGIN_NODE
    ensures hit.Some? <==> Wanted(fdt.strings, r.forest.head, accept)
    ensures hit.Some? ==> hit.value == Reg(fdt.strings, r.forest.head, 0).value.0
  {
    hide Stands, ValueAt, Listed, FindProp, Reg;
    hit := None;
    var isVirtio := false;
    var cp, clen := NodeProp(fdt, nodeOff, COMPATIBLE, r);
    if cp.Some? {
      isVirtio := ListHasNeedle(fdt.blob, cp.value, clen,
                                FindProp(fdt.strings, r.forest.head.attrs, COMPATIBLE).value.value);
    }
    if isVirtio {
      var at := NodeReg(fdt, nodeOff, 0, r);
      if at.Some? && accept(at.value.0) { hit := Some(at.value.0); }
    }
  }

  /** The name skipped as virtio_find_fdt does it, bounded by the block. */
  method SkipNameBounded(fdt: Fdt, off: nat, ghost r: Rest) returns (next: nat)
    requires Stands(fdt, off, r) && Head(r) == BEGIN_NODE
    ensures next == off + |HeadBytes(r)| && Stands(fdt, next, Tail(r))
  {
    hide Stands, HeadBytes, Tail;
    ghost var end := NameEnd(fdt, off, r);
    var p := off + 4;
    while p < |fdt.blob| && fdt.blob[p] != 0
      invariant off + 4 <= p <= end
      decreases end - p
    {
      p := p + 1;
    }
    next := (p + 4) / 4 * 4;
  }

  /** virtio_find_fdt. `accept` stands for the probe of the device at an
      address and the caller's verdict on it. */
  method VirtioFind(fdt: Fdt, accept: nat -> bool, ghost f: Forest) returns (base: nat)
    requires Flattens(fdt, f)
    ensures base == FirstWanted(fdt.strings, Preorder(f, 0), accept)
  {
    hide HeadBytes, RestBytes, Stands, Tail, Be32, Ahead, Preorder, Wanted, Reg, Flattens;
    var walk := 0;
    base := 0;
    ghost var cur := Top(f);
    StandsAtStart(fdt, f);
    AheadAtStart(f);
    while walk < |fdt.blob|
      invariant Stands(fdt, walk, cur) && base == 0
      invariant FirstWanted(fdt.strings, Preorder(f, 0), accept) == FirstWanted(fdt.strings, Ahead(cur, walk), accept)
      decreases |fdt.blob| - walk
    {
      TokenAt(fdt, walk, cur);
      var tok := Be32(fdt.blob, walk);
      if tok == BEGIN_NODE {
        Entered(fdt, walk, cur);
        var hit := Probe(fdt, walk, accept, cur);
        if hit.Some? { return hit.value; }
        walk := SkipNameBounded(fdt, walk, cur);
        cur := Tail(cur);
      } else if tok == END_NODE || tok == NOP {
        Skipped(fdt, walk, cur);
        walk := walk + 4;
        cur := Tail(cur);
      } else if tok == PROP {
        Skipped(fdt, walk, cur);
        PropSkipped(fdt, walk, cur);
        walk := SkipProp(fdt.blob, walk);
        cur := Tail(cur);
      } else {
        AllSeen(cur, walk);
        break;
      }
    }
    StandsBefore(fdt, walk, cur);
  }
}
