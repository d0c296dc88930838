// The binary ROM file system image of mkromfs.py, and a reader that follows the
// addresses in it.
module RomfsSpec {
  import opened Common

  type Byte = b: nat | b < 256

  datatype Node = File(name: seq<Byte>, data: seq<Byte>) | Folder(name: seq<Byte>, children: seq<Node>)

  const DIRENT := 16    // type, name, data and size, 4 bytes each

  function Zeros(n: nat): (r: seq<Byte>)
    ensures |r| == n && forall i :: 0 <= i < n ==> r[i] == 0
  {
    seq(n, _ => 0)
  }

  // bin_name: at least one NUL.
  function BinName(name: seq<Byte>): seq<Byte> { name + Zeros(4 - |name| % 4) }

  function Padded(data: seq<Byte>): seq<Byte> { if |data| % 4 == 0 then data else data + Zeros(4 - |data| % 4) }

  // struct 'I' of a little-endian host.
  function Word(n: nat): (r: seq<Byte>)
    ensures |r| == 4
  {
    [n % 256, n / 256 % 256, n / 256 / 256 % 256, n / 256 / 256 / 256 % 256]
  }

  function EntrySize(n: Node): nat { if n.File? then |n.data| else |n.children| }

  function Dirent(n: Node, nameAddr: nat, dataAddr: nat): (r: seq<Byte>)
    ensures |r| == DIRENT
  {
    Word(if n.File? then 0 else 1) + Word(nameAddr) + Word(dataAddr) + Word(EntrySize(n))
  }

  // bin_data with its base address.
  function BinData(n: Node, base: nat): seq<Byte>
    decreases n, 1
  {
    match n
    case File(_, data) => data
    case Folder(_, children) =>
      var v := base + DIRENT * |children|;
      Dirents(children, v) + Payload(children, v)
  }

  // Where the data of the first child starts, and where the next child does, if
  // the payload of the children starts at v.
  function DataAddr(n: Node, v: nat): nat { v + |BinName(n.name)| }

  function NextAddr(n: Node, v: nat): nat
    decreases n, 2
  {
    DataAddr(n, v) + |Padded(BinData(n, DataAddr(n, v)))|
  }

  function Dirents(cs: seq<Node>, v: nat): (r: seq<Byte>)
    ensures |r| == DIRENT * |cs|
    decreases cs, 3
  {
    if cs == [] then [] else Dirent(cs[0], v, DataAddr(cs[0], v)) + Dirents(cs[1..], NextAddr(cs[0], v))
  }

  function Payload(cs: seq<Node>, v: nat): seq<Byte>
    decreases cs, 3
  {
    if cs == [] then []
    else BinName(cs[0].name) + Padded(BinData(cs[0], DataAddr(cs[0], v))) + Payload(cs[1..], NextAddr(cs[0], v))
  }

  // All that is packed into words fits; struct.pack raises an error otherwise.
  predicate Fits(cs: seq<Node>, v: nat)
    decreases cs, 3
  {
    cs != [] ==>
      && v < U32 && DataAddr(cs[0], v) < U32 && EntrySize(cs[0]) < U32
      && (cs[0].Folder? ==> Fits(cs[0].children, DataAddr(cs[0], v) + DIRENT * |cs[0].children|))
      && Fits(cs[1..], NextAddr(cs[0], v))
  }

  const SLASH: Byte := 47

  // get_bin_data; None where struct.pack raises an error.
  function GetBinData(cs: seq<Node>, base: nat): Option<seq<Byte>> {
    var v := base + DIRENT + 4;
    if base + DIRENT < U32 && v < U32 && |cs| < U32 && Fits(cs, v + DIRENT * |cs|) then
      Some(Word(1) + Word(base + DIRENT) + Word(v) + Word(|cs|) + [SLASH, 0, 0, 0] + BinData(Folder([], cs), v))
    else None
  }

  // ----- the reader -----

  function Unword(w: seq<Byte>): nat
    requires |w| == 4
  {
    (w[0] as nat) + 256 * (w[1] as nat) + 65536 * (w[2] as nat) + 16777216 * (w[3] as nat)
  }

  // The word at absolute address a of an image at base.
  function ReadWord(img: seq<Byte>, base: nat, a: nat): Option<nat> {
    if base <= a && a + 4 <= base + |img| then Some(Unword(img[a - base..a - base + 4])) else None
  }

  function ReadBytes(img: seq<Byte>, base: nat, a: nat, n: nat): Option<seq<Byte>> {
    if base <= a && a + n <= base + |img| then Some(img[a - base..a - base + n]) else None
  }

  // Up to the next NUL.
  function ReadString(img: seq<Byte>, base: nat, a: nat): Option<seq<Byte>>
    decreases base + |img| - a
  {
    if !(base <= a < base + |img|) then None
    else if img[a - base] == 0 then Some([])
    else
      var rest :- ReadString(img, base, a + 1);
      Some([img[a - base]] + rest)
  }

  // fuel bounds the depth, as the addresses in a damaged image could run in circles.
  function ReadNode(img: seq<Byte>, base: nat, a: nat, fuel: nat): Option<Node>
    decreases fuel, 0, 1
  {
    if fuel == 0 then None
    else
      var kind :- ReadWord(img, base, a);
      var nameAddr :- ReadWord(img, base, a + 4);
      var dataAddr :- ReadWord(img, base, a + 8);
      var size :- ReadWord(img, base, a + 12);
      var name :- ReadString(img, base, nameAddr);
      if kind == 0 then
        var data :- ReadBytes(img, base, dataAddr, size);
        Some(File(name, data))
      else
        var children :- ReadNodes(img, base, dataAddr, size, fuel - 1);
        Some(Folder(name, children))
  }

  function ReadNodes(img: seq<Byte>, base: nat, a: nat, n: nat, fuel: nat): Option<seq<Node>>
    decreases fuel, n, 2
  {
    if n == 0 then Some([])
    else
      var first :- ReadNode(img, base, a, fuel);
      var rest :- ReadNodes(img, base, a + DIRENT, n - 1, fuel);
      Some([first] + rest)
  }

  // ----- what holds of every tree -----

  predicate Named(cs: seq<Node>)
    decreases cs
  {
    cs != [] ==>
      && (forall b :: b in cs[0].name ==> b != 0)
      && (cs[0].Folder? ==> Named(cs[0].children)) && Named(cs[1..])
  }

  function Depth(cs: seq<Node>): nat
    decreases cs
  {
    if cs == [] then 0
    else Max(if cs[0].Folder? then 1 + Depth(cs[0].children) else 1, Depth(cs[1..]))
  }

  // The bytes s stand at absolute address a.
  ghost predicate Holds(img: seq<Byte>, base: nat, a: nat, s: seq<Byte>) {
    base <= a && a - base + |s| <= |img| && img[a - base..a - base + |s|] == s
  }

  lemma HoldsParts(img: seq<Byte>, base: nat, a: nat, s: seq<Byte>, t: seq<Byte>)
    requires Holds(img, base, a, s + t)
    ensures Holds(img, base, a, s) && Holds(img, base, a + |s|, t)
  {
    var i := a - base;
    assert img[i..i + |s|] == img[i..i + |s + t|][..|s|];
    assert img[i + |s|..i + |s| + |t|] == img[i..i + |s + t|][|s|..];
    assert (s + t)[..|s|] == s && (s + t)[|s|..] == t;
  }

  lemma UnwordWord(n: nat)
    requires n < U32
    ensures Unword(Word(n)) == n
  {
    var (a, b) := (n / 256, n / 256 / 256);
    assert n == 256 * a + n % 256 && a == 256 * b + a % 256 && b == 256 * (b / 256) + b % 256 && b / 256 < 256;
  }

  lemma ReadsWord(img: seq<Byte>, base: nat, a: nat, n: nat)
    requires n < U32 && Holds(img, base, a, Word(n))
    ensures ReadWord(img, base, a) == Some(n)
  {
    hide Word, Unword;
    UnwordWord(n);
  }

  lemma {:induction false} ReadsString(img: seq<Byte>, base: nat, a: nat, name: seq<Byte>, post: seq<Byte>)
    requires Holds(img, base, a, name + post) && post != [] && post[0] == 0 && forall b :: b in name ==> b != 0
    ensures ReadString(img, base, a) == Some(name)
    decreases name
  {
    var s := name + post;
    assert img[a - base] == s[0] by { assert img[a - base..a - base + |s|][0] == img[a - base]; }
    if name != [] {
      assert s == [name[0]] + (name[1..] + post);
      HoldsParts(img, base, a, [name[0]], name[1..] + post);
      assert name[0] in name && forall b :: b in name[1..] ==> b in name;
      ReadsString(img, base, a + 1, name[1..], post);
      assert [name[0]] + name[1..] == name;
    }
  }

  // The four words of a directory entry.
  lemma ReadsDirent(img: seq<Byte>, base: nat, a: nat, n: Node, nameAddr: nat, dataAddr: nat)
    requires Holds(img, base, a, Dirent(n, nameAddr, dataAddr)) && nameAddr < U32 && dataAddr < U32 && EntrySize(n) < U32
    ensures ReadWord(img, base, a) == Some(if n.File? then 0 else 1)
    ensures ReadWord(img, base, a + 4) == Some(nameAddr) && ReadWord(img, base, a + 8) == Some(dataAddr)
    ensures ReadWord(img, base, a + 12) == Some(EntrySize(n))
  {
    hide Word, Holds, ReadWord;
    var (k, x, y, z) := (if n.File? then 0 else 1, Word(nameAddr), Word(dataAddr), Word(EntrySize(n)));
    HoldsParts(img, base, a, Word(k) + x + y, z);
    HoldsParts(img, base, a, Word(k) + x, y);
    HoldsParts(img, base, a, Word(k), x);
    ReadsWord(img, base, a, k);
    ReadsWord(img, base, a + 4, nameAddr);
    ReadsWord(img, base, a + 8, dataAddr);
    ReadsWord(img, base, a + 12, EntrySize(n));
  }

  lemma ReadsBytes(img: seq<Byte>, base: nat, a: nat, s: seq<Byte>)
    requires Holds(img, base, a, s)
    ensures ReadBytes(img, base, a, |s|) == Some(s)
  {
  }

  lemma PaddedHolds(img: seq<Byte>, base: nat, a: nat, s: seq<Byte>)
    requires Holds(img, base, a, Padded(s))
    ensures Holds(img, base, a, s)
  {
    if |s| % 4 != 0 { HoldsParts(img, base, a, s, Zeros(4 - |s| % 4)); }
  }

  lemma {:induction false} FolderHolds(img: seq<Byte>, base: nat, a: nat, n: Node)
    requires n.Folder? && Holds(img, base, a, BinData(n, a))
    ensures var v := a + DIRENT * |n.children|;
      Holds(img, base, a, Dirents(n.children, v)) && Holds(img, base, v, Payload(n.children, v))
  {
    hide Holds, Dirents, Payload;
    var v := a + DIRENT * |n.children|;
    HoldsParts(img, base, a, Dirents(n.children, v), Payload(n.children, v));
  }

  // The first child of a list.
  lemma ListFirst(cs: seq<Node>, v: nat)
    requires cs != []
    ensures var (c, data, next) := (cs[0], DataAddr(cs[0], v), NextAddr(cs[0], v));
      && Dirents(cs, v) == Dirent(c, v, data) + Dirents(cs[1..], next)
      && Payload(cs, v) == BinName(c.name) + Padded(BinData(c, data)) + Payload(cs[1..], next)
      && data == v + |BinName(c.name)| && next == data + |Padded(BinData(c, data))|
  {
  }

  lemma {:induction false} FitsFirst(cs: seq<Node>, v: nat)
    requires cs != [] && Fits(cs, v)
    ensures var (c, data, next) := (cs[0], DataAddr(cs[0], v), NextAddr(cs[0], v));
      && v < U32 && data < U32 && EntrySize(c) < U32 && Fits(cs[1..], next)
      && (c.Folder? ==> Fits(c.children, data + DIRENT * |c.children|))
  {
    hide DataAddr, NextAddr, EntrySize, BinData, Dirents, Payload;
  }

  lemma {:induction false} NamedFirst(cs: seq<Node>, fuel: nat)
    requires cs != [] && Named(cs) && Depth(cs) <= fuel
    ensures (forall b :: b in cs[0].name ==> b != 0) && 0 < fuel && Named(cs[1..]) && Depth(cs[1..]) <= fuel
    ensures cs[0].Folder? ==> Named(cs[0].children) && Depth(cs[0].children) < fuel
  {
  }

  // The first of the entries at d for children whose payload is at v, and where the others
  // stand.
  lemma {:induction false} ReadsFirst(img: seq<Byte>, base: nat, d: nat, v: nat, cs: seq<Node>, fuel: nat)
    requires Holds(img, base, d, Dirents(cs, v)) && Holds(img, base, v, Payload(cs, v))
    requires Fits(cs, v) && Named(cs) && Depth(cs) <= fuel && cs != []
    ensures ReadNode(img, base, d, fuel) == Some(cs[0])
    ensures var next := NextAddr(cs[0], v);
      && Holds(img, base, d + DIRENT, Dirents(cs[1..], next)) && Holds(img, base, next, Payload(cs[1..], next))
      && Fits(cs[1..], next) && Named(cs[1..]) && Depth(cs[1..]) <= fuel && 0 < fuel
    decreases cs, 1
  {
    hide Holds, Dirent, BinName, Padded, Dirents, Payload, BinData, DataAddr, NextAddr, Fits, Named, Depth, ReadNode;
    FitsFirst(cs, v);
    NamedFirst(cs, fuel);
    var (c, data, next) := (cs[0], DataAddr(cs[0], v), NextAddr(cs[0], v));
    ListFirst(cs, v);
    HoldsParts(img, base, d, Dirent(c, v, data), Dirents(cs[1..], next));
    HoldsParts(img, base, v, BinName(c.name) + Padded(BinData(c, data)), Payload(cs[1..], next));
    HoldsParts(img, base, v, BinName(c.name), Padded(BinData(c, data)));
    PaddedHolds(img, base, data, BinData(c, data));
    ReadsOne(img, base, d, v, c, fuel);
  }

  // Directory entries at d for children whose payload is at v read back as them.
  lemma {:induction false} ReadsNodes(img: seq<Byte>, base: nat, d: nat, v: nat, cs: seq<Node>, fuel: nat)
    requires Holds(img, base, d, Dirents(cs, v)) && Holds(img, base, v, Payload(cs, v))
    requires Fits(cs, v) && Named(cs) && Depth(cs) <= fuel
    ensures ReadNodes(img, base, d, |cs|, fuel) == Some(cs)
    decreases cs, 2
  {
    hide Holds, Dirents, Payload, NextAddr, Fits, Named, Depth, ReadNode;
    if cs != [] {
      ReadsFirst(img, base, d, v, cs, fuel);
      ReadsNodes(img, base, d + DIRENT, NextAddr(cs[0], v), cs[1..], fuel);
      assert [cs[0]] + cs[1..] == cs;
    }
  }

  lemma {:induction false} ReadsOne(img: seq<Byte>, base: nat, d: nat, v: nat, c: Node, fuel: nat)
    requires var data := DataAddr(c, v);
      && Holds(img, base, d, Dirent(c, v, data)) && Holds(img, base, v, BinName(c.name)) && Holds(img, base, data, BinData(c, data))
      && v < U32 && data < U32 && EntrySize(c) < U32
      && (c.Folder? ==> Fits(c.children, data + DIRENT * |c.children|) && Named(c.children) && Depth(c.children) < fuel)
    requires (forall b :: b in c.name ==> b != 0) && 0 < fuel
    ensures ReadNode(img, base, d, fuel) == Some(c)
    decreases c, 0
  {
    hide Holds, Dirent, ReadWord, ReadString, ReadBytes, ReadNodes;
    var data := DataAddr(c, v);
    ReadsDirent(img, base, d, c, v, data);
    ReadsString(img, base, v, c.name, Zeros(4 - |c.name| % 4));
    if c.File? {
      ReadsBytes(img, base, data, c.data);
    } else {
      FolderHolds(img, base, data, c);
      ReadsNodes(img, base, data, data + DIRENT * |c.children|, c.children, fuel - 1);
    }
  }

  // Whoever follows the addresses from the start of the image finds the tree again,
  // under the name "/".
  lemma RoundTrip(cs: seq<Node>, base: nat, fuel: nat)
    requires Named(cs) && GetBinData(cs, base).Some? && Depth(cs) < fuel
    ensures ReadNode(GetBinData(cs, base).value, base, base, fuel) == Some(Folder([SLASH], cs))
  {
    hide Holds, ReadWord, ReadString, ReadBytes, ReadNodes, Word, BinData, Dirent;
    var (img, v) := (GetBinData(cs, base).value, base + DIRENT + 4);
    var (head, name, tree) := (RootDirent(cs, base), [SLASH, 0, 0, 0], Folder([], cs));
    assert Holds(img, base, base, head + name + BinData(tree, v)) by { WholeHolds(img, base, head + name + BinData(tree, v)); }
    HoldsParts(img, base, base, head + name, BinData(tree, v));
    HoldsParts(img, base, base, head, name);
    FolderHolds(img, base, v, tree);
    ReadsNodes(img, base, v, v + DIRENT * |cs|, cs, fuel - 1);
    RootReads(img, base, cs);
    assert name == [SLASH] + [0, 0, 0];
    ReadsString(img, base, base + DIRENT, [SLASH], [0, 0, 0]);
  }

  function RootDirent(cs: seq<Node>, base: nat): (r: seq<Byte>)
    ensures |r| == DIRENT
  {
    Word(1) + Word(base + DIRENT) + Word(base + DIRENT + 4) + Word(|cs|)
  }

  lemma WholeHolds(img: seq<Byte>, base: nat, s: seq<Byte>)
    requires img == s
    ensures Holds(img, base, base, s)
  {
  }

  lemma RootReads(img: seq<Byte>, base: nat, cs: seq<Node>)
    requires Holds(img, base, base, RootDirent(cs, base)) && base + DIRENT + 4 < U32 && |cs| < U32
    ensures ReadWord(img, base, base) == Some(1) && ReadWord(img, base, base + 4) == Some(base + DIRENT)
    ensures ReadWord(img, base, base + 8) == Some(base + DIRENT + 4) && ReadWord(img, base, base + 12) == Some(|cs|)
  {
    hide Dirent, Word, Holds, ReadWord;
    var (x, y, z) := (Word(base + DIRENT), Word(base + DIRENT + 4), Word(|cs|));
    HoldsParts(img, base, base, Word(1) + x + y, z);
    HoldsParts(img, base, base, Word(1) + x, y);
    HoldsParts(img, base, base, Word(1), x);
    ReadsWord(img, base, base, 1);
    ReadsWord(img, base, base + 4, base + DIRENT);
    ReadsWord(img, base, base + 8, base + DIRENT + 4);
    ReadsWord(img, base, base + 12, |cs|);
  }

  // ----- the format, byte by byte -----

  // A word has its low byte first.
  lemma WordMeans(n: nat)
    requires n < U32
    ensures var w := Word(n); n == (w[0] as nat) + 256 * ((w[1] as nat) + 256 * ((w[2] as nat) + 256 * (w[3] as nat)))
  {
    var (a, b) := (n / 256, n / 256 / 256);
    assert n == 256 * a + n % 256 && a == 256 * b + a % 256 && b == 256 * (b / 256) + b % 256 && b / 256 < 256;
  }

  // An entry is 16 bytes: its type, 0 for a file and 1 for a folder, and then the address
  // of the name, the address of the data, and the size.
  lemma DirentMeans(n: Node, nameAddr: nat, dataAddr: nat)
    ensures var d := Dirent(n, nameAddr, dataAddr);
      && |d| == 16 && d[..4] == [if n.File? then 0 else 1, 0, 0, 0]
      && d[4..8] == Word(nameAddr) && d[8..12] == Word(dataAddr)
      && d[12..] == Word(match n case File(_, data) => |data| case Folder(_, children) => |children|)
  {
  }

  // n rounded up to a multiple of 4.
  function RoundUp(n: nat): (r: nat)
    ensures r % 4 == 0 && n <= r < n + 4
  {
    (n + 3) / 4 * 4
  }

  lemma RoundUpIs(n: nat)
    ensures RoundUp(n) == n + if n % 4 == 0 then 0 else 4 - n % 4
    ensures RoundUp(n + 1) == n + 4 - n % 4
  {
  }

  // A name is followed by a NUL, and what is filled up is filled up with NULs, as far as
  // the next multiple of 4.
  lemma NamesEnd(name: seq<Byte>)
    ensures |BinName(name)| == RoundUp(|name| + 1) && BinName(name)[..|name|] == name
    ensures forall i :: |name| <= i < |BinName(name)| ==> BinName(name)[i] == 0
  {
    hide RoundUp;
    RoundUpIs(|name|);
  }

  lemma DataEnds(data: seq<Byte>)
    ensures |Padded(data)| == RoundUp(|data|) && Padded(data)[..|data|] == data
    ensures forall i :: |data| <= i < |Padded(data)| ==> Padded(data)[i] == 0
  {
    hide RoundUp;
    RoundUpIs(|data|);
  }

  // What a tree takes: an entry and the rounded name and data of every file and folder.
  function Size(cs: seq<Node>): nat
    decreases cs
  {
    if cs == [] then 0
    else 16 + RoundUp(|cs[0].name| + 1) + (if cs[0].File? then RoundUp(|cs[0].data|) else Size(cs[0].children)) + Size(cs[1..])
  }

  // An image has the root entry, its name, and that, and nothing else.
  lemma ImageSize(cs: seq<Node>, base: nat)
    requires GetBinData(cs, base).Some?
    ensures |GetBinData(cs, base).value| == 20 + Size(cs)
    ensures var img := GetBinData(cs, base).value;
      img[..20] == [1, 0, 0, 0] + Word(base + 16) + Word(base + 20) + Word(|cs|) + [47, 0, 0, 0]
  {
    hide Dirents, Payload, Fits, Size;
    PayloadSize(cs, base + DIRENT + 4 + DIRENT * |cs|);
  }

  // An image that ends below 2^32 can be built.
  lemma BuildsBelow(cs: seq<Node>, base: nat)
    requires base + 20 + Size(cs) < U32
    ensures GetBinData(cs, base).Some?
  {
    hide Fits, Size, BinData, RoundUp;
    SizeOfEntries(cs);
    FitsBelow(cs, base + 20 + 16 * |cs|);
  }

  lemma {:induction false} SizeOfEntries(cs: seq<Node>)
    ensures 20 * |cs| <= Size(cs)
    decreases cs
  {
    if cs != [] { SizeOfEntries(cs[1..]); }
  }

  lemma {:induction false} FitsBelow(cs: seq<Node>, v: nat)
    requires v + Size(cs) < U32 + 16 * |cs|
    ensures Fits(cs, v)
    decreases cs, 1
  {
    hide Padded, BinName, BinData, RoundUp, Fits, Size;
    if cs != [] {
      var (c, data, next) := (cs[0], DataAddr(cs[0], v), NextAddr(cs[0], v));
      SizeFirst(cs, v);
      SizeOfEntries(cs[1..]);
      FitsBelow(cs[1..], next);
      if c.Folder? {
        SizeOfEntries(c.children);
        FitsBelow(c.children, data + DIRENT * |c.children|);
      }
      FitsCons(cs, v);
    }
    if cs == [] { FitsNone(v); }
  }

  lemma SizeFirst(cs: seq<Node>, v: nat)
    requires cs != []
    ensures var (c, data, next) := (cs[0], DataAddr(cs[0], v), NextAddr(cs[0], v));
      && Size(cs) == 16 + (next - v) + Size(cs[1..]) && v < data <= next
      && if c.File? then |c.data| <= next - data else Size(c.children) == next - data
  {
    hide Padded, BinName, BinData;
    NamesEnd(cs[0].name);
    DataSize(cs[0], DataAddr(cs[0], v));
  }

  lemma {:induction false} FitsCons(cs: seq<Node>, v: nat)
    requires cs != []
    requires var (c, data) := (cs[0], DataAddr(cs[0], v));
      && v < U32 && data < U32 && EntrySize(c) < U32 && (c.Folder? ==> Fits(c.children, data + DIRENT * |c.children|))
    requires Fits(cs[1..], NextAddr(cs[0], v))
    ensures Fits(cs, v)
  {
    hide DataAddr, NextAddr, EntrySize;
  }

  lemma {:induction false} FitsNone(v: nat)
    ensures Fits([], v)
  {
  }

  lemma {:induction false} PayloadSize(cs: seq<Node>, v: nat)
    ensures DIRENT * |cs| + |Payload(cs, v)| == Size(cs)
    decreases cs, 1
  {
    hide Padded, BinName, BinData, Dirents, DataAddr, NextAddr, RoundUp;
    if cs != [] {
      var (c, data, next) := (cs[0], DataAddr(cs[0], v), NextAddr(cs[0], v));
      NamesEnd(c.name);
      DataSize(c, data);
      PayloadSize(cs[1..], next);
    }
  }

  lemma {:induction false} DataSize(c: Node, data: nat)
    ensures |Padded(BinData(c, data))| == if c.File? then RoundUp(|c.data|) else Size(c.children)
    decreases c, 0
  {
    hide Payload, Dirents, Padded, RoundUp;
    DataEnds(BinData(c, data));
    if c.Folder? {
      PayloadSize(c.children, data + DIRENT * |c.children|);
      SizeOfFours(c.children);
      RoundUpSame(Size(c.children));
    }
  }

  lemma RoundUpSame(n: nat)
    requires n % 4 == 0
    ensures RoundUp(n) == n
  {
  }

  lemma {:induction false} SizeOfFours(cs: seq<Node>)
    ensures Size(cs) % 4 == 0
    decreases cs
  {
    hide RoundUp;
    if cs != [] {
      var inner := if cs[0].File? then RoundUp(|cs[0].data|) else Size(cs[0].children);
      SizeOfFours(cs[1..]);
      if cs[0].Folder? { SizeOfFours(cs[0].children); }
      FoursAdd(RoundUp(|cs[0].name| + 1), inner, Size(cs[1..]));
    }
  }

  lemma FoursAdd(a: nat, b: nat, c: nat)
    requires a % 4 == 0 && b % 4 == 0 && c % 4 == 0
    ensures (16 + a + b + c) % 4 == 0
  {
  }

  // ----- alignment -----

  datatype Extent = Extent(start: nat, stop: nat)

  // The directory table, names and file contents of the children, in address order.
  function Extents(cs: seq<Node>, v: nat): seq<Extent>
    decreases cs, 1
  {
    if cs == [] then []
    else
      var data := DataAddr(cs[0], v);
      [Extent(v, data)] + Inner(cs[0], data) + Extents(cs[1..], NextAddr(cs[0], v))
  }

  // The extents inside the data of one child.
  function Inner(c: Node, data: nat): seq<Extent>
    decreases c, 0
  {
    if c.File? then [Extent(data, data + |c.data|)]
    else [Extent(data, data + DIRENT * |c.children|)] + Extents(c.children, data + DIRENT * |c.children|)
  }

  // Each starts at a multiple of 4, none reaches into the next, all lie in [low, high].
  ghost predicate Aligned(es: seq<Extent>, low: nat, high: nat)
    decreases es
  {
    if es == [] then low <= high
    else low <= es[0].start <= es[0].stop && es[0].start % 4 == 0 && Aligned(es[1..], es[0].stop, high)
  }

  lemma {:induction false} AlignedAppend(a: seq<Extent>, b: seq<Extent>, low: nat, mid: nat, high: nat)
    requires Aligned(a, low, mid) && Aligned(b, mid, high)
    ensures Aligned(a + b, low, high)
    decreases a
  {
    if a == [] {
      assert a + b == b;
      AlignedFrom(b, mid, low, high);
    } else {
      assert (a + b)[1..] == a[1..] + b;
      AlignedAppend(a[1..], b, a[0].stop, mid, high);
    }
  }

  lemma AlignedFrom(es: seq<Extent>, low: nat, lower: nat, high: nat)
    requires Aligned(es, low, high) && lower <= low
    ensures Aligned(es, lower, high)
  {
  }

  lemma PaddedIs(data: seq<Byte>)
    ensures |Padded(data)| % 4 == 0 && |data| <= |Padded(data)| < |data| + 4
  {
  }

  lemma NameIs(name: seq<Byte>)
    ensures |BinName(name)| % 4 == 0 && |name| < |BinName(name)|
  {
  }

  lemma {:induction false} PayloadAligned(cs: seq<Node>, v: nat)
    requires v % 4 == 0
    ensures |Payload(cs, v)| % 4 == 0 && Aligned(Extents(cs, v), v, v + |Payload(cs, v)|)
    decreases cs, 1
  {
    hide Padded, BinName, Inner, BinData, Dirents, Extents, DataAddr, NextAddr, Payload, Aligned;
    NoExtents(v);
    if cs != [] {
      var (c, data, next) := (cs[0], DataAddr(cs[0], v), NextAddr(cs[0], v));
      ListFirst(cs, v);
      NameIs(c.name);
      PaddedIs(BinData(c, data));
      SumOfFours(v, |BinName(c.name)|);
      SumOfFours(data, |Padded(BinData(c, data))|);
      PayloadAligned(cs[1..], next);
      SumOfFours(|BinName(c.name)|, |Padded(BinData(c, data))|);
      SumOfFours(|BinName(c.name)| + |Padded(BinData(c, data))|, |Payload(cs[1..], next)|);
      InnerAligned(c, data);
      AlignedUpTo(Inner(c, data), data, data + |BinData(c, data)|, next);
      var rest := Extents(cs[1..], next);
      AlignedAppend(Inner(c, data), rest, data, next, v + |Payload(cs, v)|);
      AlignedCons(Extent(v, data), Inner(c, data) + rest, v + |Payload(cs, v)|);
      ExtentsFirst(cs, v);
    }
  }

  lemma SumOfFours(a: nat, b: nat)
    requires a % 4 == 0 && b % 4 == 0
    ensures (a + b) % 4 == 0
  {
  }

  lemma AlignedCons(e: Extent, es: seq<Extent>, high: nat)
    requires e.start <= e.stop && e.start % 4 == 0 && Aligned(es, e.stop, high)
    ensures Aligned([e] + es, e.start, high)
  {
    assert ([e] + es)[1..] == es;
  }

  lemma NoExtents(v: nat)
    ensures Extents([], v) == [] && Payload([], v) == [] && Aligned([], v, v)
  {
  }

  lemma ExtentsFirst(cs: seq<Node>, v: nat)
    requires cs != []
    ensures var data := DataAddr(cs[0], v);
      Extents(cs, v) == [Extent(v, data)] + (Inner(cs[0], data) + Extents(cs[1..], NextAddr(cs[0], v)))
  {
  }

  lemma {:induction false} InnerAligned(c: Node, data: nat)
    requires data % 4 == 0
    ensures Aligned(Inner(c, data), data, data + |BinData(c, data)|)
    decreases c, 0
  {
    hide Payload, Dirents;
    if c.Folder? {
      PayloadAligned(c.children, data + DIRENT * |c.children|);
      assert Inner(c, data)[1..] == Extents(c.children, data + DIRENT * |c.children|);
    } else {
      assert Inner(c, data)[1..] == [];
    }
  }

  lemma {:induction false} AlignedUpTo(es: seq<Extent>, low: nat, high: nat, higher: nat)
    requires Aligned(es, low, high) && high <= higher
    ensures Aligned(es, low, higher)
    decreases es
  {
    if es != [] { AlignedUpTo(es[1..], es[0].stop, high, higher); }
  }

  // The root entry, its name and its table, and everything below.
  function ImageExtents(cs: seq<Node>, base: nat): seq<Extent> {
    var (name, table) := (base + DIRENT, base + DIRENT + 4);
    var v := table + DIRENT * |cs|;
    [Extent(base, name), Extent(name, table), Extent(table, v)] + Extents(cs, v)
  }

  // In an image at a multiple of 4 every entry, name, table and file starts at one, and
  // no two of them overlap.
  lemma ImageAligned(cs: seq<Node>, base: nat)
    requires base % 4 == 0 && GetBinData(cs, base).Some?
    ensures Aligned(ImageExtents(cs, base), base, base + |GetBinData(cs, base).value|)
  {
    hide Payload, Dirents, Extents, Fits, Word;
    var (name, table) := (base + DIRENT, base + DIRENT + 4);
    var v := table + DIRENT * |cs|;
    var (rest, high) := (Extents(cs, v), base + |GetBinData(cs, base).value|);
    PayloadAligned(cs, v);
    AlignedCons(Extent(table, v), rest, high);
    AlignedCons(Extent(name, table), [Extent(table, v)] + rest, high);
    AlignedCons(Extent(base, name), [Extent(name, table)] + ([Extent(table, v)] + rest), high);
    assert ImageExtents(cs, base) == [Extent(base, name)] + ([Extent(name, table)] + ([Extent(table, v)] + rest));
  }
}
