/** The walkers of src/fdt.c, and their copies in src/smp.c and src/virtio.c:
    loops moving an offset over a structure block. */
module FdtWalk {
  import opened Words
  import opened FdtTree

  const NOWHERE: nat := 0xFFFF_FFFF

  const COMPATIBLE: seq<u8> := [99, 111, 109, 112, 97, 116, 105, 98, 108, 101]
  const DEVICE_TYPE: seq<u8> := [100, 101, 118, 105, 99, 101, 95, 116, 121, 112, 101]
  const CPU: seq<u8> := [99, 112, 117]
  const AT_SIGN: u8 := 64

  /** The structure block and the strings block. */
  datatype Fdt = Fdt(blob: seq<u8>, strings: seq<u8>)

  // ---- What the walkers look for, on the tree ----

  /** The bytes from i up to the next NUL, or to the end. */
  function CString(s: seq<u8>, i: nat): seq<u8>
    decreases |s| - i
  {
    if i >= |s| || s[i] == 0 then [] else [s[i]] + CString(s, i + 1)
  }

  /** The first of the node's own properties of that name. */
  function FindProp(strings: seq<u8>, attrs: seq<Attr>, name: seq<u8>): Option<Prop> {
    if attrs == [] then None
    else if attrs[0].Own? && CString(strings, attrs[0].prop.nameoff) == name then Some(attrs[0].prop)
    else FindProp(strings, attrs[1..], name)
  }

  /** A string of a list starts at p. */
  ghost predicate ListedAt(value: seq<u8>, p: nat, target: seq<u8>) {
    p < |value| && (p == 0 || value[p - 1] == 0) && CString(value, p) == target
  }

  ghost predicate Listed(value: seq<u8>, target: seq<u8>) {
    exists p: nat :: ListedAt(value, p, target)
  }

  datatype Query = Compatible(string: seq<u8>) | Named(string: seq<u8>) | DeviceType(string: seq<u8>)

  ghost predicate Meets(strings: seq<u8>, t: Tree, q: Query) {
    match q
    case Compatible(s) =>
      var p := FindProp(strings, t.attrs, COMPATIBLE);
      p.Some? && Listed(p.value.value, s)
    case Named(s) =>
      s <= t.name && (|t.name| == |s| || t.name[|s|] == AT_SIGN)
    case DeviceType(s) =>
      var p := FindProp(strings, t.attrs, DEVICE_TYPE);
      p.Some? && CString(p.value.value, 0) == s
  }

  /** The offset of the first node listed that meets the query. */
  ghost function FirstOf(strings: seq<u8>, vs: seq<Visit>, q: Query): nat {
    if vs == [] then NOWHERE
    else if Meets(strings, vs[0].tree, q) then vs[0].off
    else FirstOf(strings, vs[1..], q)
  }

  ghost function CountOf(strings: seq<u8>, vs: seq<Visit>, q: Query): nat {
    if vs == [] then 0
    else (if Meets(strings, vs[0].tree, q) then 1 else 0) + CountOf(strings, vs[1..], q)
  }

  /** FirstOf finds a node that meets the query and that no such node precedes;
      it finds none exactly when there is none. */
  lemma {:induction false} FirstOfIsFirst(strings: seq<u8>, vs: seq<Visit>, q: Query)
    requires forall k :: 0 <= k < |vs| ==> vs[k].off < NOWHERE
    ensures var r := FirstOf(strings, vs, q);
      r == NOWHERE <==> forall k :: 0 <= k < |vs| ==> !Meets(strings, vs[k].tree, q)
    ensures var r := FirstOf(strings, vs, q);
      r != NOWHERE ==>
        exists k :: 0 <= k < |vs| && vs[k].off == r && Meets(strings, vs[k].tree, q)
                    && forall j :: 0 <= j < k ==> !Meets(strings, vs[j].tree, q)
  {
    if vs != [] && !Meets(strings, vs[0].tree, q) {
      FirstOfIsFirst(strings, vs[1..], q);
      var r := FirstOf(strings, vs, q);
      if r != NOWHERE {
        var k :| 0 <= k < |vs[1..]| && vs[1..][k].off == r && Meets(strings, vs[1..][k].tree, q)
                 && forall j :: 0 <= j < k ==> !Meets(strings, vs[1..][j].tree, q);
        assert vs[k + 1] == vs[1..][k];
        assert forall j :: 0 < j < k + 1 ==> vs[j] == vs[1..][j - 1];
      } else {
        assert forall j :: 0 < j < |vs| ==> vs[j] == vs[1..][j - 1];
      }
    }
  }

  // ---- Well-formed blocks ----

  ghost predicate Terminated(s: seq<u8>, i: nat) {
    exists j :: i <= j < |s| && s[j] == 0
  }

  ghost predicate GoodAttrs(strings: seq<u8>, attrs: seq<Attr>) {
    forall i :: 0 <= i < |attrs| && attrs[i].Own? ==> Terminated(strings, attrs[i].prop.nameoff)
  }

  ghost predicate GoodForest(strings: seq<u8>, f: Forest) {
    match f
    case Empty => true
    case Pad(rest) => GoodForest(strings, rest)
    case Cons(t, rest) =>
      0 !in t.name && GoodAttrs(strings, t.attrs) && GoodForest(strings, t.kids) && GoodForest(strings, rest)
  }

  ghost predicate GoodRest(strings: seq<u8>, r: Rest) {
    match r
    case Top(f) => GoodForest(strings, f)
    case In(attrs, f, up) => GoodAttrs(strings, attrs) && GoodForest(strings, f) && GoodRest(strings, up)
  }

  /** The blob is the flattening of `f`. */
  ghost predicate Flattens(fdt: Fdt, f: Forest) {
    fdt.blob == RestBytes(Top(f)) && |fdt.blob| < NOWHERE && GoodForest(fdt.strings, f)
  }

  /** In the middle of a walk, `r` is what is left from `off` on. */
  ghost predicate Stands(fdt: Fdt, off: nat, r: Rest) {
    && |fdt.blob| < NOWHERE && off % 4 == 0 && off <= |fdt.blob|
    && fdt.blob[off..] == RestBytes(r) && GoodRest(fdt.strings, r)
  }

  lemma StandsAtStart(fdt: Fdt, f: Forest)
    requires Flattens(fdt, f)
    ensures Stands(fdt, 0, Top(f))
  {}

  // ---- Reading a block ----

  /** fdt_read_be32. */
  function Be32(s: seq<u8>, off: nat): (n: u32)
    requires off + 4 <= |s|
  {
    var a: int, b: int, c: int, d: int := s[off], s[off + 1], s[off + 2], s[off + 3];
    a * 0x100_0000 + b * 0x1_0000 + c * 0x100 + d
  }

  /** The value of bytes with the highest first. */
  function BigEndian(s: seq<u8>): nat {
    if s == [] then 0 else BigEndian(s[..|s| - 1]) * 0x100 + s[|s| - 1]
  }

  lemma Be32IsBigEndian(s: seq<u8>, off: nat)
    requires off + 4 <= |s|
    ensures Be32(s, off) == BigEndian(s[off..off + 4])
  {
    var t := s[off..off + 4];
    var t3, t2, t1 := t[..3], t[..3][..2], t[..3][..2][..1];
    assert t1[..0] == [];
    assert BigEndian(t1) == t[0] && BigEndian(t2) == BigEndian(t1) * 0x100 + t[1];
    assert BigEndian(t3) == BigEndian(t2) * 0x100 + t[2] && BigEndian(t) == BigEndian(t3) * 0x100 + t[3];
  }

  lemma Be32Split(n: u32)
    ensures n / 0x100_0000 % 0x100 * 0x100_0000 + n / 0x1_0000 % 0x100 * 0x1_0000
            + n / 0x100 % 0x100 * 0x100 + n % 0x100 == n
  {}

  /** A big-endian word reads back as it was written. */
  lemma Be32Back(s: seq<u8>, off: nat, n: u32)
    requires HasAt(s, off, Be32Bytes(n))
    ensures Be32(s, off) == n
  {
    Be32Split(n);
    var w := s[off..off + 4];
    assert s[off] == w[0] && s[off + 1] == w[1] && s[off + 2] == w[2] && s[off + 3] == w[3];
  }

  lemma HeadAligned(r: Rest)
    ensures |HeadBytes(r)| % 4 == 0 && |HeadBytes(r)| >= 4
  {
    hide Be32Bytes, Filler;
    if Head(r) == BEGIN_NODE { BeginSize(r.forest.head.name); }
    else if Head(r) == PROP { PropSize(r.attrs[0].prop); }
  }

  lemma BeginSize(name: seq<u8>)
    ensures |BeginBytes(name)| == (4 + |name| + 1 + 3) / 4 * 4
  {
    hide Be32Bytes;
  }

  lemma PropSize(p: Prop)
    ensures |PropBytes(p)| == 12 + (|p.value| + 3) / 4 * 4
  {
    hide Be32Bytes;
  }

  lemma TailGood(strings: seq<u8>, r: Rest)
    requires GoodRest(strings, r) && Head(r) != END
    ensures GoodRest(strings, Tail(r))
  {}

  lemma SplitAt(s: seq<u8>, off: nat, h: seq<u8>, t: seq<u8>)
    requires off <= |s| && s[off..] == h + t
    ensures HasAt(s, off, h) && s[off + |h|..] == t
  {
    assert |s| - off == |h| + |t|;
    assert s[off..off + |h|] == s[off..][..|h|];
    assert s[off + |h|..] == s[off..][|h|..];
  }

  /** One token further. */
  lemma Step(fdt: Fdt, off: nat, r: Rest)
    requires Stands(fdt, off, r) && Head(r) != END
    ensures HasAt(fdt.blob, off, HeadBytes(r))
    ensures Stands(fdt, off + |HeadBytes(r)|, Tail(r))
  {
    hide HeadBytes, RestBytes, GoodRest, Head, Tail, HasAt;
    RestStep(r);
    HeadAligned(r);
    TailGood(fdt.strings, r);
    SplitAt(fdt.blob, off, HeadBytes(r), RestBytes(Tail(r)));
    assert off + |HeadBytes(r)| <= |fdt.blob|;
  }

  /** A walk never runs off the block before FDT_END. */
  lemma TokenAt(fdt: Fdt, off: nat, r: Rest)
    requires Stands(fdt, off, r)
    ensures off + 4 <= |fdt.blob| && Be32(fdt.blob, off) == Head(r)
  {
    hide Be32, Be32Bytes, GoodRest;
    if Head(r) == END {
      SplitAt(fdt.blob, off, Be32Bytes(END), []);
    } else {
      Step(fdt, off, r);
      var h := HeadBytes(r);
      SplitAt(h, 0, Be32Bytes(Head(r)), h[4..]);
      HasWithin(fdt.blob, off, h, 0, Be32Bytes(Head(r)));
    }
    Be32Back(fdt.blob, off, Head(r));
  }

  lemma HasWithin(s: seq<u8>, off: nat, h: seq<u8>, at: nat, x: seq<u8>)
    requires HasAt(s, off, h) && HasAt(h, at, x)
    ensures HasAt(s, off + at, x)
  {
    var lo, hi := off + at, off + at + |x|;
    forall i | lo <= i < hi ensures s[i] == x[i - lo] {
      assert s[i] == s[off..off + |h|][i - off] == h[at..at + |x|][i - lo];
    }
  }

  // ---- Strings ----

  /** A string is what stands before the first NUL, or before the end. */
  lemma {:induction false} CStringUpTo(s: seq<u8>, i: nat, j: nat)
    requires i <= j <= |s| && (j < |s| ==> s[j] == 0) && forall k :: i <= k < j ==> s[k] != 0
    ensures CString(s, i) == s[i..j]
    decreases j - i
  {
    if i < j {
      CStringUpTo(s, i + 1, j);
      assert s[i..j] == [s[i]] + s[i + 1..j];
    }
  }

  /** The property found is one of the node's own, of that name, with none of
      that name before it; none is found exactly when there is none. */
  lemma {:induction false} FindPropIsFirst(strings: seq<u8>, attrs: seq<Attr>, name: seq<u8>)
    ensures FindProp(strings, attrs, name).None? <==> forall i :: 0 <= i < |attrs| ==> !IsNamed(strings, attrs[i], name)
    ensures FindProp(strings, attrs, name).Some? ==>
      exists i :: 0 <= i < |attrs| && IsNamed(strings, attrs[i], name) && FindProp(strings, attrs, name).value == attrs[i].prop
                  && forall j :: 0 <= j < i ==> !IsNamed(strings, attrs[j], name)
  {
    if attrs != [] && !IsNamed(strings, attrs[0], name) {
      var rest := attrs[1..];
      FindPropIsFirst(strings, rest, name);
      assert forall j :: 0 < j < |attrs| ==> attrs[j] == rest[j - 1];
      if FindProp(strings, rest, name).Some? {
        var i :| 0 <= i < |rest| && IsNamed(strings, rest[i], name) && FindProp(strings, rest, name).value == rest[i].prop
                 && forall j :: 0 <= j < i ==> !IsNamed(strings, rest[j], name);
        assert attrs[i + 1] == rest[i];
      }
    }
  }

  ghost predicate IsNamed(strings: seq<u8>, a: Attr, name: seq<u8>) {
    a.Own? && CString(strings, a.prop.nameoff) == name
  }

  /** The nodes counted are those that meet the query, each once. */
  lemma {:induction false} CountOfIsNumber(strings: seq<u8>, vs: seq<Visit>, q: Query) returns (ks: seq<nat>)
    ensures |ks| == CountOf(strings, vs, q)
    ensures forall i, j :: 0 <= i < j < |ks| ==> ks[i] < ks[j]
    ensures forall k :: k in ks <==> 0 <= k < |vs| && Meets(strings, vs[k].tree, q)
    decreases |vs|
  {
    hide Meets;
    ks := [];
    if vs != [] {
      var n := |vs| - 1;
      ks := CountOfIsNumber(strings, vs[..n], q);
      CountOfLast(strings, vs, q);
      assert forall i :: 0 <= i < |ks| ==> ks[i] in ks;
      if Meets(strings, vs[n].tree, q) { ks := ks + [n]; }
    }
  }

  lemma {:induction false} CountOfLast(strings: seq<u8>, vs: seq<Visit>, q: Query)
    requires vs != []
    ensures CountOf(strings, vs, q) ==
            CountOf(strings, vs[..|vs| - 1], q) + if Meets(strings, vs[|vs| - 1].tree, q) then 1 else 0
    decreases |vs|
  {
    hide Meets;
    if |vs| > 1 {
      CountOfLast(strings, vs[1..], q);
      assert vs[1..][..|vs| - 2] == vs[..|vs| - 1][1..];
    }
  }

  /** The bytes of a text. */
  function Ascii(s: string): seq<u8> {
    seq(|s|, i requires 0 <= i < |s| => (s[i] as int) % 0x80)
  }

  /** The names looked for, spelled. */
  lemma Spelled()
    ensures COMPATIBLE == Ascii("compatible") && DEVICE_TYPE == Ascii("device_type") && CPU == Ascii("cpu")
    ensures [AT_SIGN] == Ascii("@")
  {}

  /** The tokens as section 5.4.1 of the Devicetree Specification numbers
      them. */
  lemma TokensOnWire()
    ensures Be32Bytes(BEGIN_NODE) == [0, 0, 0, 1] && Be32Bytes(END_NODE) == [0, 0, 0, 2]
    ensures Be32Bytes(PROP) == [0, 0, 0, 3] && Be32Bytes(NOP) == [0, 0, 0, 4] && Be32Bytes(END) == [0, 0, 0, 9]
  {}

  /** str_eq, of the string at i and a string of its own. */
  method StrEq(s: seq<u8>, i: nat, t: seq<u8>) returns (eq: bool)
    requires Terminated(s, i) && 0 !in t
    ensures eq <==> CString(s, i) == t
  {
    ghost var end :| i <= end < |s| && s[end] == 0;
    var k := 0;
    while s[i + k] != 0 && k < |t| && s[i + k] == t[k]
      invariant i + k <= end && k <= |t|
      invariant CString(s, i) == t[..k] + CString(s, i + k)
      decreases end - k
    {
      assert t[..k + 1] == t[..k] + [t[k]];
      k := k + 1;
    }
    eq := s[i + k] == 0 && k == |t|;
    Compare(t, k, CString(s, i + k));
  }

  lemma Compare(t: seq<u8>, k: nat, rest: seq<u8>)
    requires k <= |t|
    ensures t[..k] + rest == t <==> rest == t[k..]
  {
    assert (t[..k] + rest)[k..] == rest;
    assert t[..k] + t[k..] == t;
  }

  /** A value and the zero that follows it in the block. */
  ghost predicate ValueAt(blob: seq<u8>, at: nat, value: seq<u8>) {
    HasAt(blob, at, value) && at + |value| < |blob| && blob[at + |value|] == 0
  }

  /** A string of a property's value reads the same in the block, whether or
      not the value ends in a NUL. */
  lemma {:induction false} SameString(blob: seq<u8>, at: nat, value: seq<u8>, p: nat)
    requires ValueAt(blob, at, value) && p <= |value|
    ensures CString(blob, at + p) == CString(value, p) && Terminated(blob, at + p)
    decreases |value| - p
  {
    if p < |value| {
      assert blob[at + p] == blob[at..at + |value|][p] == value[p];
      if value[p] != 0 { SameString(blob, at, value, p + 1); }
    }
  }

  /** The strings of a compatible property. */
  method ListHas(blob: seq<u8>, list: nat, len: nat, target: seq<u8>, ghost value: seq<u8>) returns (found: bool)
    requires ValueAt(blob, list, value) && len == |value| && 0 !in target
    ensures found <==> Listed(value, target)
  {
    hide CString;
    var pos := 0;
    while pos < len
      invariant pos < len ==> pos == 0 || value[pos - 1] == 0
      invariant forall p: nat :: p < pos ==> !ListedAt(value, p, target)
      decreases len - pos
    {
      SameString(blob, list, value, pos);
      var eq := StrEq(blob, list + pos, target);
      if eq {
        assert ListedAt(value, pos, target);
        return true;
      }
      ghost var start := pos;
      while pos < len && blob[list + pos] != 0
        invariant start <= pos <= len
        invariant forall p: nat :: start <= p < pos ==> value[p] != 0
      {
        assert blob[list + pos] == blob[list..list + len][pos] == value[pos];
        pos := pos + 1;
      }
      if pos < len { assert blob[list + pos] == blob[list..list + len][pos] == value[pos]; }
      pos := pos + 1;
    }
    found := false;
  }

  // ---- Tokens ----

  /** Where the parts of FDT_BEGIN_NODE stand. */
  lemma NameAt(fdt: Fdt, off: nat, r: Rest)
    requires Stands(fdt, off, r) && Head(r) == BEGIN_NODE
    ensures var name := r.forest.head.name;
      HasAt(fdt.blob, off + 4, name) && off + 4 + |name| < |fdt.blob| && fdt.blob[off + 4 + |name|] == 0
      && |HeadBytes(r)| == (4 + |name| + 1 + 3) / 4 * 4
  {
    hide HasAt, Stands, Tail, BeginBytes;
    Step(fdt, off, r);
    var name := r.forest.head.name;
    BeginParts(name);
    HasWithin(fdt.blob, off, HeadBytes(r), 4, name + [0]);
    NameThenZero(fdt.blob, off + 4, name);
  }

  lemma NameThenZero(s: seq<u8>, at: nat, name: seq<u8>)
    requires HasAt(s, at, name + [0])
    ensures HasAt(s, at, name) && at + |name| < |s| && s[at + |name|] == 0
  {
    var w := s[at..at + |name| + 1];
    assert w[|name|] == 0;
    assert w[..|name|] == name;
  }

  lemma BeginParts(name: seq<u8>)
    ensures HasAt(BeginBytes(name), 4, name + [0]) && |BeginBytes(name)| == (4 + |name| + 1 + 3) / 4 * 4
  {
    BeginSize(name);
    Middle(Be32Bytes(BEGIN_NODE), name + [0], Filler(|name| + 1));
    assert BeginBytes(name) == Be32Bytes(BEGIN_NODE) + (name + [0]) + Filler(|name| + 1);
  }

  lemma Middle(a: seq<u8>, b: seq<u8>, c: seq<u8>)
    ensures HasAt(a + b + c, |a|, b)
  {}

  /** skip_name. */
  method SkipName(fdt: Fdt, off: nat, ghost r: Rest) returns (next: nat)
    requires Stands(fdt, off, r) && Head(r) == BEGIN_NODE
    ensures next == off + |HeadBytes(r)| && Stands(fdt, next, Tail(r))
  {
    hide Stands, HeadBytes, Tail;
    ghost var end := NameEnd(fdt, off, r);
    var p := off + 4;
    while fdt.blob[p] != 0
      invariant off + 4 <= p <= end
      decreases end - p
    {
      p := p + 1;
    }
    p := p + 1;
    next := (p + 3) / 4 * 4;
  }

  /** The NUL that ends a node's name, and the token after it. */
  lemma NameEnd(fdt: Fdt, off: nat, r: Rest) returns (end: nat)
    requires Stands(fdt, off, r) && Head(r) == BEGIN_NODE
    ensures off + 4 <= end < |fdt.blob| && fdt.blob[end] == 0
    ensures forall p :: off + 4 <= p < end ==> fdt.blob[p] != 0
    ensures off + |HeadBytes(r)| == (end + 4) / 4 * 4 && Stands(fdt, off + |HeadBytes(r)|, Tail(r))
  {
    hide RestBytes, HeadBytes, Tail;
    var name := r.forest.head.name;
    NameAt(fdt, off, r);
    NameHasNoZero(fdt, r);
    Step(fdt, off, r);
    end := off + 4 + |name|;
    forall p | off + 4 <= p < end ensures fdt.blob[p] != 0 {
      assert fdt.blob[p] == fdt.blob[off + 4..off + 4 + |name|][p - (off + 4)];
    }
  }

  lemma NameHasNoZero(fdt: Fdt, r: Rest)
    requires GoodRest(fdt.strings, r) && Head(r) == BEGIN_NODE
    ensures forall i :: 0 <= i < |r.forest.head.name| ==> r.forest.head.name[i] != 0
  {}

  /** Where the parts of FDT_PROP stand. */
  lemma PropAt(fdt: Fdt, off: nat, r: Rest)
    requires Stands(fdt, off, r) && Head(r) == PROP
    ensures var p := r.attrs[0].prop;
      off + 12 <= |fdt.blob| && Be32(fdt.blob, off + 4) == |p.value| && Be32(fdt.blob, off + 8) == p.nameoff
      && ValueAt(fdt.blob, off + 12, p.value) && |HeadBytes(r)| == 12 + (|p.value| + 3) / 4 * 4
  {
    hide HasAt, Be32, Be32Bytes, RestBytes, GoodRest, Tail, Filler;
    var p := r.attrs[0].prop;
    Step(fdt, off, r);
    PropParts(p);
    PropSize(p);
    assert |p.value| < NOWHERE;
    HasWithin(fdt.blob, off, HeadBytes(r), 4, Be32Bytes(|p.value|));
    HasWithin(fdt.blob, off, HeadBytes(r), 8, Be32Bytes(p.nameoff));
    HasWithin(fdt.blob, off, HeadBytes(r), 12, p.value + Filler(|p.value|));
    Be32Back(fdt.blob, off + 4, |p.value|);
    Be32Back(fdt.blob, off + 8, p.nameoff);
    ValueThenZero(fdt, off, r);
  }

  lemma PropParts(p: Prop)
    ensures HasAt(PropBytes(p), 4, Be32Bytes(|p.value|)) && HasAt(PropBytes(p), 8, Be32Bytes(p.nameoff))
    ensures HasAt(PropBytes(p), 12, p.value + Filler(|p.value|))
  {
    hide Be32Bytes, Filler;
    var t, l, n, v, f := Be32Bytes(PROP), Be32Bytes(|p.value|), Be32Bytes(p.nameoff), p.value, Filler(|p.value|);
    Middle(t, l, n + v + f);
    assert PropBytes(p) == t + l + (n + v + f);
    Middle(t + l, n, v + f);
    assert PropBytes(p) == (t + l) + n + (v + f);
    Middle(t + l + n, v + f, []);
    assert PropBytes(p) == (t + l + n) + (v + f) + [];
  }

  /** What follows a value is its filler, or the next token: a zero. */
  lemma ValueThenZero(fdt: Fdt, off: nat, r: Rest)
    requires Stands(fdt, off, r) && Head(r) == PROP
    requires var p := r.attrs[0].prop; HasAt(fdt.blob, off + 12, p.value + Filler(|p.value|))
    ensures ValueAt(fdt.blob, off + 12, r.attrs[0].prop.value)
  {
    hide RestBytes, GoodRest, Tail, Be32Bytes, Be32, Filler, HasAt, HeadBytes;
    var v, f := r.attrs[0].prop.value, Filler(|r.attrs[0].prop.value|);
    PartAt(fdt.blob, off + 12, v, f);
    if f == [] {
      Step(fdt, off, r);
      PropTokenSize(r);
      TokenAt(fdt, off + |HeadBytes(r)|, Tail(r));
      FirstByte(fdt.blob, off + |HeadBytes(r)|);
      HeadIsSmall(Tail(r));
    }
  }

  lemma PropTokenSize(r: Rest)
    requires Head(r) == PROP && Filler(|r.attrs[0].prop.value|) == []
    ensures |HeadBytes(r)| == 12 + |r.attrs[0].prop.value|
  {
    hide Be32Bytes, Filler;
  }

  lemma PartAt(s: seq<u8>, at: nat, v: seq<u8>, f: seq<u8>)
    requires HasAt(s, at, v + f)
    ensures HasAt(s, at, v) && (f != [] ==> at + |v| < |s| && s[at + |v|] == f[0])
  {
    var w := s[at..at + |v + f|];
    assert w[..|v|] == v;
    assert f != [] ==> w[|v|] == f[0];
  }

  lemma HeadIsSmall(r: Rest)
    ensures Head(r) < 10
  {}

  lemma FirstByte(s: seq<u8>, off: nat)
    requires off + 4 <= |s| && Be32(s, off) < 0x100_0000
    ensures s[off] == 0
  {}
}
