// The loops of mkromfs.py that build the image.
module Romfs {
  import opened Common
  import opened RomfsSpec

  lemma DirentsSnoc(cs: seq<Node>, v: nat, i: nat)
    requires i < |cs|
    ensures AddrOf(cs, v, i + 1) == NextAddr(cs[i], AddrOf(cs, v, i))
    ensures Dirents(cs[..i + 1], v) == Dirents(cs[..i], v) + Dirent(cs[i], AddrOf(cs, v, i), DataAddr(cs[i], AddrOf(cs, v, i)))
    ensures var a := AddrOf(cs, v, i);
      Payload(cs[..i + 1], v) == Payload(cs[..i], v) + (BinName(cs[i].name) + Padded(BinData(cs[i], DataAddr(cs[i], a))))
    decreases cs
  {
    hide Dirent, BinName, Padded, BinData;
    if i > 0 {
      DirentsSnoc(cs[1..], NextAddr(cs[0], v), i - 1);
      assert cs[1..][..i] == cs[..i + 1][1..] && cs[1..][..i - 1] == cs[..i][1..];
      assert cs[..i + 1][0] == cs[0] == cs[..i][0];
    } else {
      assert cs[..1] == [cs[0]] && [cs[0]][1..] == [] && cs[..0] == [];
    }
  }

  // Where the name of child i is put.
  function AddrOf(cs: seq<Node>, v: nat, i: nat): nat
    requires i <= |cs|
    decreases cs
  {
    if i == 0 then v else AddrOf(cs[1..], NextAddr(cs[0], v), i - 1)
  }

  lemma Bounds(cs: seq<Node>, v: nat)
    ensures cs[..0] == [] && cs[..|cs|] == cs && AddrOf(cs, v, 0) == v
    ensures Dirents([], v) == [] && Payload([], v) == []
  {
  }

  lemma NextIs(c: Node, a: nat)
    ensures var d := a + |BinName(c.name)|; DataAddr(c, a) == d && NextAddr(c, a) == d + |Padded(BinData(c, d))|
  {
  }

  // The words of the directory entry of c fit, and so do those inside c.
  predicate FitsOne(c: Node, v: nat) {
    && v < U32 && DataAddr(c, v) < U32 && EntrySize(c) < U32
    && (c.Folder? ==> Fits(c.children, DataAddr(c, v) + DIRENT * |c.children|))
  }

  lemma {:induction false} FitsSnoc(cs: seq<Node>, v: nat, i: nat)
    requires i < |cs|
    ensures Fits(cs[..i + 1], v) <==> Fits(cs[..i], v) && FitsOne(cs[i], AddrOf(cs, v, i))
    ensures Fits(cs, v) ==> Fits(cs[..i + 1], v)
    decreases cs
  {
    hide FitsOne, DataAddr, NextAddr, EntrySize;
    FitsCons(cs, v);
    FitsCons(cs[..i + 1], v);
    if i > 0 {
      FitsCons(cs[..i], v);
      FitsSnoc(cs[1..], NextAddr(cs[0], v), i - 1);
      assert cs[1..][..i] == cs[..i + 1][1..] && cs[1..][..i - 1] == cs[..i][1..];
    } else {
      assert cs[..1][1..] == [] && cs[..0] == [];
    }
  }

  lemma FitsCons(cs: seq<Node>, v: nat)
    ensures Fits([], v)
    ensures cs != [] ==> (Fits(cs, v) <==> FitsOne(cs[0], v) && Fits(cs[1..], NextAddr(cs[0], v)))
  {
  }

  // bin_data; ok is false where struct.pack raises an error.
  method Build(n: Node, base: nat) returns (ok: bool, r: seq<Byte>)
    ensures ok == (n.Folder? ==> Fits(n.children, base + DIRENT * |n.children|))
    ensures ok ==> r == BinData(n, base)
    decreases n, 1
  {
    hide Dirents, Payload, Fits;
    match n {
      case File(_, data) =>
        ok, r := true, data;
      case Folder(_, children) =>
        var dirents, payload;
        ok, dirents, payload := BuildChildren(children, base + DIRENT * |children|);
        r := dirents + payload;
    }
  }

  method BuildChildren(children: seq<Node>, start: nat) returns (ok: bool, dirents: seq<Byte>, payload: seq<Byte>)
    ensures ok == Fits(children, start)
    ensures ok ==> dirents == Dirents(children, start) && payload == Payload(children, start)
    decreases children, 0
  {
    hide *;
    Bounds(children, start);
    FitsCons([], start);
    var v := start;
    ok, dirents, payload := true, [], [];
    var i := 0;
    while i < |children|
      invariant ok && i <= |children| && v == AddrOf(children, start, i) && Fits(children[..i], start)
      invariant dirents == Dirents(children[..i], start) && payload == Payload(children[..i], start)
    {
      var c := children[i];
      DirentsSnoc(children, start, i);
      FitsSnoc(children, start, i);
      NextIs(c, v);
      var name := BinName(c.name);
      var nameAddr := v;
      v := v + |name|;
      var data;
      ok, data := Build(c, v);
      var dataAddr := v;
      data := Padded(data);
      v := v + |data|;
      FitsOneIs(c, nameAddr);
      if !ok || U32 <= nameAddr || U32 <= dataAddr || U32 <= EntrySize(c) {
        ok := false;
        return;
      }
      dirents := dirents + Dirent(c, nameAddr, dataAddr);
      payload := payload + (name + data);
      i := i + 1;
    }
  }

  lemma FitsOneIs(c: Node, a: nat)
    ensures FitsOne(c, a) <==>
      && a < U32 && a + |BinName(c.name)| < U32 && EntrySize(c) < U32
      && (c.Folder? ==> Fits(c.children, a + |BinName(c.name)| + DIRENT * |c.children|))
  {
    hide Fits;
  }

  // get_bin_data.
  method BuildImage(cs: seq<Node>, base: nat) returns (img: Option<seq<Byte>>)
    ensures img == GetBinData(cs, base)
  {
    hide Fits, BinData;
    var v := base + DIRENT;
    var nameAddr := v;
    v := v + 4;
    if U32 <= nameAddr || U32 <= v || U32 <= |cs| {
      return None;
    }
    var ok, data := Build(Folder([], cs), v);
    if !ok {
      return None;
    }
    img := Some(Word(1) + Word(nameAddr) + Word(v) + Word(|cs|) + [SLASH, 0, 0, 0] + data);
  }
}
