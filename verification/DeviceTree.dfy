/** Flattened device trees, sections 5.2, 5.4 and 5.5 of the Devicetree Specification,
    and the loop that reports every property of one. */
module DeviceTree {
  import opened Dyadic
  import opened Integers
  import opened Slices
  import opened Words

  type Bytes = seq<bv8>

  const MAGIC: bv32 := 0xD00D_FEED
  const BEGIN_NODE: bv32 := 1
  const END_NODE: bv32 := 2
  const PROP: bv32 := 3
  const END: bv32 := 0
  const NIL := -1

  // Trees.

  /** A property; its length is also there as a word, and its name lies in the strings
      block at the offset. */
  datatype Prop = Prop(name: Bytes, value: Bytes, length: bv32, offset: bv32)

  datatype Node = Node(name: Bytes, props: seq<Prop>, children: seq<Node>)

  /** A property together with the name of the node it belongs to. */
  datatype Owned = Owned(node: Bytes, prop: Prop)

  function OwnedBy(node: Bytes, props: seq<Prop>): seq<Owned> {
    if props == [] then [] else [Owned(node, props[0])] + OwnedBy(node, props[1..])
  }

  /** All properties of the trees, those of each node before those of its children. */
  function Preorder(nodes: seq<Node>): seq<Owned>
    decreases nodes
  {
    if nodes == [] then []
    else OwnedBy(nodes[0].name, nodes[0].props) + Preorder(nodes[0].children) + Preorder(nodes[1..])
  }

  // The structure block.

  /** Every word that is no other token means nothing to the reader. */
  datatype Piece = Begin(name: Bytes) | Property(prop: Prop) | End | Nop(word: bv32)

  function Properties(props: seq<Prop>): seq<Piece> {
    if props == [] then [] else [Property(props[0])] + Properties(props[1..])
  }

  /** The pieces of the trees: name, properties, children, end of node. */
  function Flatten(nodes: seq<Node>): seq<Piece>
    decreases nodes
  {
    if nodes == [] then []
    else
      var n := nodes[0];
      [Begin(n.name)] + Properties(n.props) + Flatten(n.children) + [End] + Flatten(nodes[1..])
  }

  /** Without the pieces that mean nothing. */
  function Strip(pieces: seq<Piece>): seq<Piece> {
    if pieces == [] then []
    else (if pieces[0].Nop? then [] else [pieces[0]]) + Strip(pieces[1..])
  }

  /** What a reader reports that remembers nothing but the last name begun. */
  function Reported(pieces: seq<Piece>, node: Bytes): seq<Owned> {
    if pieces == [] then []
    else match pieces[0]
      case Begin(name) => Reported(pieces[1..], name)
      case Property(prop) => [Owned(node, prop)] + Reported(pieces[1..], node)
      case _ => Reported(pieces[1..], node)
  }

  function LastBegun(pieces: seq<Piece>, node: Bytes): Bytes {
    if pieces == [] then node
    else LastBegun(pieces[1..], if pieces[0].Begin? then pieces[0].name else node)
  }

  lemma {:induction false} StripReportsSame(pieces: seq<Piece>, node: Bytes)
    ensures Reported(Strip(pieces), node) == Reported(pieces, node)
  {
    if pieces != [] {
      var rest := Strip(pieces[1..]);
      StripReportsSame(pieces[1..], if pieces[0].Begin? then pieces[0].name else node);
      assert ([pieces[0]] + rest)[1..] == rest;
      assert [] + rest == rest;
    }
  }

  lemma {:induction false} ReportedApart(a: seq<Piece>, b: seq<Piece>, node: Bytes)
    ensures Reported(a + b, node) == Reported(a, node) + Reported(b, LastBegun(a, node))
  {
    if a == [] {
      assert a + b == b;
    } else {
      ReportedApart(a[1..], b, if a[0].Begin? then a[0].name else node);
      assert (a + b)[1..] == a[1..] + b;
    }
  }

  lemma {:induction false} ReportedProperties(props: seq<Prop>, node: Bytes)
    ensures Reported(Properties(props), node) == OwnedBy(node, props)
    ensures LastBegun(Properties(props), node) == node
  {
    if props != [] {
      ReportedProperties(props[1..], node);
      assert Properties(props)[1..] == Properties(props[1..]);
    }
  }

  lemma OnePiece(piece: Piece, node: Bytes)
    requires !piece.Property?
    ensures Reported([piece], node) == []
    ensures LastBegun([piece], node) == if piece.Begin? then piece.name else node
  {
    assert Reported([], node) == [];
  }

  /** Such a reader does report every property once, in order, with its own node: in
      the pieces of trees properties come before child nodes. */
  lemma {:induction false} ReportedIsPreorder(nodes: seq<Node>, node: Bytes)
    ensures Reported(Flatten(nodes), node) == Preorder(nodes)
    decreases nodes
  {
    if nodes != [] {
      hide Reported, LastBegun, Properties, OwnedBy;
      var n := nodes[0];
      var head, props, inner, rest := [Begin(n.name)], Properties(n.props), Flatten(n.children), Flatten(nodes[1..]);
      OnePiece(Begin(n.name), node);
      OnePiece(End, LastBegun(head + props + inner, node));
      ReportedProperties(n.props, n.name);
      ReportedIsPreorder(n.children, n.name);
      var last := LastBegun(head + props + inner + [End], node);
      ReportedIsPreorder(nodes[1..], last);
      ReportedApart(head + props + inner + [End], rest, node);
      ReportedApart(head + props + inner, [End], node);
      ReportedApart(head + props, inner, node);
      ReportedApart(head, props, node);
      LastApart(head, props, node);
    }
  }

  lemma {:induction false} LastApart(a: seq<Piece>, b: seq<Piece>, node: Bytes)
    ensures LastBegun(a + b, node) == LastBegun(b, LastBegun(a, node))
  {
    if a == [] {
      assert a + b == b;
    } else {
      LastApart(a[1..], b, if a[0].Begin? then a[0].name else node);
      assert (a + b)[1..] == a[1..] + b;
    }
  }

  function Padded(s: Bytes): (r: Bytes)
    ensures |r| == PadTo4(|s|)
  {
    s + Filled(PadTo4(|s|) - |s|, 0)
  }

  function Encode(piece: Piece): (s: Bytes)
    ensures |s| >= 4
  {
    match piece
    case Begin(name) => Big(BEGIN_NODE) + Padded(name + [0])
    case Property(prop) => Big(PROP) + Big(prop.length) + Big(prop.offset) + Padded(prop.value)
    case End => Big(END_NODE)
    case Nop(word) => Big(word)
  }

  predicate Fits(piece: Piece) {
    match piece
    case Begin(name) => 0 !in name
    case Property(prop) => 0 !in prop.name && Number(prop.length) == |prop.value|
    case End => true
    case Nop(word) => word > 3
  }

  function EncodeAll(pieces: seq<Piece>): Bytes {
    if pieces == [] then Big(END) else Encode(pieces[0]) + EncodeAll(pieces[1..])
  }

  /** The word at p as the source reads it. */
  function WordAt(blob: Bytes, p: nat): bv32
    requires p + 4 <= |blob|
  {
    SwapEndian(Load(blob[p..p + 4]))
  }

  /** From p onwards there is nothing more for the reader, up to an end token or to the size. */
  predicate Stops(blob: Bytes, p: nat, total: nat)
    decreases total - p
  {
    p < total ==>
      p + 4 <= |blob|
      && (WordAt(blob, p) == END
          || (WordAt(blob, p) != BEGIN_NODE && WordAt(blob, p) != PROP && Stops(blob, p + 4, total)))
  }

  /** The pieces lie one after the other from p onwards and within the size, and there the
      reader stops. */
  predicate PiecesAt(blob: Bytes, p: nat, total: nat, pieces: seq<Piece>)
    decreases |pieces|
  {
    if pieces == [] then Stops(blob, p, total)
    else
      var e := Encode(pieces[0]);
      Fits(pieces[0]) && HasAt(blob, p, e) && p + |e| <= total && PiecesAt(blob, p + |e|, total, pieces[1..])
  }

  lemma StopsAtEnd(blob: Bytes, p: nat, total: nat)
    requires HasAt(blob, p, Big(END))
    ensures Stops(blob, p, total)
  {
    WordOf(blob, p, END);
  }

  lemma {:induction false} EncodedPieces(before: Bytes, pieces: seq<Piece>, after: Bytes, total: nat)
    requires forall i :: 0 <= i < |pieces| ==> Fits(pieces[i])
    requires |before| + |EncodeAll(pieces)| <= total
    ensures PiecesAt(before + EncodeAll(pieces) + after, |before|, total, pieces)
    decreases |pieces|
  {
    hide HasAt, Encode, Stops;
    AtOf(before, EncodeAll(pieces), after);
    if pieces == [] {
      StopsAtEnd(before + EncodeAll(pieces) + after, |before|, total);
    } else {
      var e, rest := Encode(pieces[0]), EncodeAll(pieces[1..]);
      assert before + (e + rest) + after == before + e + (rest + after) == (before + e) + rest + after;
      AtOf(before, e, rest + after);
      assert Fits(pieces[0]);
      EncodedPieces(before + e, pieces[1..], after, total);
    }
  }

  // The reader.

  /** The positions that the callback is given, and the length, a signed number. */
  datatype Call = Call(node: int, prop: nat, value: nat, length: int)

  /** A call shows the callback the property of the node. */
  predicate Shows(blob: Bytes, call: Call, o: Owned) {
    call.node >= 0 && StringAt(blob, call.node, 0) == o.node
    && StringAt(blob, call.prop, 0) == o.prop.name
    && HasAt(blob, call.value, o.prop.value)
    && call.length == ToInt(|o.prop.value|)
  }

  predicate AllShown(blob: Bytes, calls: seq<Call>, owned: seq<Owned>) {
    |calls| == |owned| && forall i :: 0 <= i < |calls| ==> Shows(blob, calls[i], owned[i])
  }

  predicate NamesAt(blob: Bytes, strings: nat, pieces: seq<Piece>) {
    forall i :: 0 <= i < |pieces| && pieces[i].Property? ==>
      HasAt(blob, strings + Number(pieces[i].prop.offset), pieces[i].prop.name + [0])
  }

  predicate HasMagic(blob: Bytes) {
    |blob| >= 40 && WordAt(blob, 0) == MAGIC
  }

  /** Memory that begins with a blob, whose structure and strings blocks are the encoding of
      one tree. */
  predicate TreeBlob(blob: Bytes, root: Node, pieces: seq<Piece>)
    requires HasMagic(blob)
  {
    var start, strings := Number(WordAt(blob, 8)), Number(WordAt(blob, 12));
    var total := Number(WordAt(blob, 4));
    total <= |blob| && start % 4 == 0
    && Strip(pieces) == Flatten([root]) && PiecesAt(blob, start, total, pieces) && NamesAt(blob, strings, pieces)
  }

  /** The header fields that the reader looks at, and the others. */
  function Header(size: bv32, start: bv32, strings: bv32, others: Bytes): Bytes {
    Big(MAGIC) + Big(size) + Big(start) + Big(strings) + others
  }

  /** A blob as it is written: header, reservation block, structure block, strings block. */
  lemma EncodedTree(size: bv32, start: bv32, strings: bv32, others: Bytes, root: Node, pieces: seq<Piece>,
      names: Bytes)
    requires |others| >= 24 && Strip(pieces) == Flatten([root])
    requires forall i :: 0 <= i < |pieces| ==> Fits(pieces[i])
    requires NamesAt(names, 0, pieces)
    requires var h := Header(size, start, strings, others); var p := EncodeAll(pieces);
      Number(start) == |h| && |h| % 4 == 0 && Number(strings) == |h + p| && Number(size) == |h + p + names|
    ensures var blob := Header(size, start, strings, others) + EncodeAll(pieces) + names;
      HasMagic(blob) && TreeBlob(blob, root, pieces)
  {
    hide Number, WordAt, EncodeAll, PiecesAt, NamesAt, Strip, Flatten;
    var h, p := Header(size, start, strings, others), EncodeAll(pieces);
    var blob := h + p + names;
    HeaderWords(size, start, strings, others, p + names);
    assert blob == h + (p + names);
    EncodedPieces(h, pieces, names, Number(size));
    NamesFurtherOn(h + p, names, pieces);
  }

  lemma NamesFurtherOn(before: Bytes, memory: Bytes, pieces: seq<Piece>)
    requires NamesAt(memory, 0, pieces)
    ensures NamesAt(before + memory, |before|, pieces)
  {
    forall i | 0 <= i < |pieces| && pieces[i].Property?
      ensures HasAt(before + memory, |before| + Number(pieces[i].prop.offset), pieces[i].prop.name + [0])
    {
      FurtherOn(before, memory, Number(pieces[i].prop.offset), pieces[i].prop.name + [0]);
    }
  }

  lemma FurtherOn(before: Bytes, memory: Bytes, p: nat, s: Bytes)
    requires HasAt(memory, p, s)
    ensures HasAt(before + memory, |before| + p, s)
  {
    assert (before + memory)[|before| + p..|before| + p + |s|] == memory[p..p + |s|];
  }

  lemma HeaderWords(size: bv32, start: bv32, strings: bv32, others: Bytes, after: Bytes)
    requires |others| >= 24
    ensures var blob := Header(size, start, strings, others) + after;
      |blob| >= 40 && WordAt(blob, 0) == MAGIC && WordAt(blob, 4) == size && WordAt(blob, 8) == start
      && WordAt(blob, 12) == strings
  {
    hide Big, WordAt;
    var blob := Header(size, start, strings, others) + after;
    assert blob[0..4] == Big(MAGIC) && blob[4..8] == Big(size) && blob[8..12] == Big(start);
    assert blob[12..16] == Big(strings);
    WordOf(blob, 0, MAGIC);
    WordOf(blob, 4, size);
    WordOf(blob, 8, start);
    WordOf(blob, 12, strings);
  }

  lemma WordOf(blob: Bytes, p: nat, w: bv32)
    requires HasAt(blob, p, Big(w))
    ensures WordAt(blob, p) == w
  {
    LoadBig(w);
  }

  // The format in bytes.

  /** Four bytes spell a word, the most significant first. */
  predicate Spells(s: Bytes, w: bv32) {
    |s| == 4
    && w == ((s[0] as bv32) << 24) | ((s[1] as bv32) << 16) | ((s[2] as bv32) << 8) | (s[3] as bv32)
  }

  lemma BigSpells(w: bv32)
    ensures Spells(Big(w), w)
  {
  }

  lemma SmallWords(b: bv8)
    ensures Big(b as bv32) == [0, 0, 0, b]
  {
    var w := b as bv32;
    assert (w >> 24) as bv8 == 0 && ((w >> 16) & 0xFF) as bv8 == 0 && ((w >> 8) & 0xFF) as bv8 == 0;
    assert (w & 0xFF) as bv8 == b;
  }

  lemma MagicBytes()
    ensures Big(0xD00D_FEED) == [0xD0, 0x0D, 0xFE, 0xED]
  {
  }

  /** Every piece in bytes: 1 begins a node, 3 a property, 2 ends a node, names and values are
      filled up with zeros, and zero ends everything. */
  lemma EncodedBytes(name: Bytes, prop: Prop, b: bv8)
    ensures Encode(Begin(name)) == [0, 0, 0, 1] + name + Filled(4 - |name| % 4, 0)
    ensures var e := Encode(Property(prop));
      |e| >= 12 && e[0..4] == [0, 0, 0, 3] && Spells(e[4..8], prop.length) && Spells(e[8..12], prop.offset)
      && e[12..] == prop.value + Filled((4 - |prop.value| % 4) % 4, 0)
    ensures Encode(End) == [0, 0, 0, 2] && Encode(Nop(b as bv32)) == [0, 0, 0, b] && EncodeAll([]) == [0, 0, 0, 0]
  {
    BeginBytes(name);
    PropertyBytes(prop);
    hide Encode, Spells;
    OtherBytes(b);
  }

  lemma BeginBytes(name: Bytes)
    ensures Encode(Begin(name)) == [0, 0, 0, 1] + name + Filled(4 - |name| % 4, 0)
  {
    hide Big;
    SmallWords(1);
    var zeros := Filled(3 - |name| % 4, 0 as bv8);
    assert [0 as bv8] + zeros == Filled(4 - |name| % 4, 0);
    assert Padded(name + [0]) == name + [0] + zeros == name + ([0] + zeros);
    assert Encode(Begin(name)) == [0, 0, 0, 1] + (name + ([0] + zeros));
  }

  lemma PropertyBytes(prop: Prop)
    ensures var e := Encode(Property(prop));
      |e| >= 12 && e[0..4] == [0, 0, 0, 3] && Spells(e[4..8], prop.length) && Spells(e[8..12], prop.offset)
      && e[12..] == prop.value + Filled((4 - |prop.value| % 4) % 4, 0)
  {
    hide Big, Encode, Spells;
    SmallWords(3);
    BigSpells(prop.length);
    BigSpells(prop.offset);
    PropertyLayout(prop);
    PropertyEnd(prop);
  }

  lemma OtherBytes(b: bv8)
    ensures Encode(End) == [0, 0, 0, 2] && Encode(Nop(b as bv32)) == [0, 0, 0, b] && EncodeAll([]) == [0, 0, 0, 0]
  {
    hide Big;
    SmallWords(0);
    SmallWords(2);
    SmallWords(b);
  }

  lemma PropertyEnd(prop: Prop)
    ensures Encode(Property(prop))[12..] == Padded(prop.value)
  {
    hide Big, Padded;
    var head := Big(PROP) + Big(prop.length) + Big(prop.offset);
    assert Encode(Property(prop)) == head + Padded(prop.value) && |head| == 12;
  }

  /** The header in bytes: the magic number, the size, and where the two blocks are. */
  lemma HeaderBytes(size: bv32, start: bv32, strings: bv32, others: Bytes)
    ensures var h := Header(size, start, strings, others);
      |h| == 16 + |others| && h[0..4] == [0xD0, 0x0D, 0xFE, 0xED]
      && Spells(h[4..8], size) && Spells(h[8..12], start) && Spells(h[12..16], strings) && h[16..] == others
  {
    hide Big;
    MagicBytes();
    BigSpells(size);
    BigSpells(start);
    BigSpells(strings);
  }

  // Blobs as the specification writes them, where 4 is no operation and 9 the end.

  /** A structure block of the specification. */
  function SpecAll(pieces: seq<Piece>): Bytes {
    if pieces == [] then [0, 0, 0, 9] else Encode(pieces[0]) + SpecAll(pieces[1..])
  }

  /** Bytes of which no word is 1 or 3, as those of names and zeros are. */
  predicate Quiet(blob: Bytes, p: nat, q: nat) {
    q <= |blob| && forall k :: p <= k < q ==> blob[k] == 0 || blob[k] >= 4
  }

  lemma LastByte(s: Bytes)
    requires |s| == 4 && (s[3] == 0 || s[3] >= 4)
    ensures SwapEndian(Load(s)) != 1 && SwapEndian(Load(s)) != 3
  {
    SwapKeeps(s[0], s[1], s[2], s[3]);
  }

  lemma SwapKeeps(a: bv8, b: bv8, c: bv8, d: bv8)
    ensures SwapEndian((a as bv32) | ((b as bv32) << 8) | ((c as bv32) << 16) | ((d as bv32) << 24)) & 0xFF
      == d as bv32
  {
  }

  /** Over quiet bytes the reader finds nothing. */
  lemma {:induction false} QuietStops(blob: Bytes, p: nat, total: nat)
    requires p % 4 == 0 && Quiet(blob, p, PadTo4(total))
    ensures Stops(blob, p, total)
    decreases total - p
  {
    hide Load, SwapEndian;
    if p < total {
      WithinPadding(p, total);
      LastByte(blob[p..p + 4]);
      QuietStops(blob, p + 4, total);
    }
  }

  lemma WithinPadding(p: nat, total: nat)
    requires p % 4 == 0 && p < total
    ensures p + 4 <= PadTo4(total)
  {
  }

  lemma EncodeAligned(piece: Piece)
    ensures |Encode(piece)| % 4 == 0
  {
    if piece.Property? {
      PropertyLayout(piece.prop);
    }
  }

  lemma {:induction false} SpecPieces(before: Bytes, pieces: seq<Piece>, after: Bytes, total: nat)
    requires forall i :: 0 <= i < |pieces| ==> Fits(pieces[i])
    requires |before| % 4 == 0 && |before| + |SpecAll(pieces)| <= total
    requires Quiet(before + SpecAll(pieces) + after, |before| + |SpecAll(pieces)|, PadTo4(total))
    ensures PiecesAt(before + SpecAll(pieces) + after, |before|, total, pieces + [Nop(9)])
    decreases |pieces|
  {
    hide HasAt, Encode, Stops, Quiet;
    AtOf(before, SpecAll(pieces), after);
    if pieces == [] {
      LastPiece(before, after, total);
    } else {
      var e, rest := Encode(pieces[0]), SpecAll(pieces[1..]);
      EncodeAligned(pieces[0]);
      Regrouped(before, e, rest, after);
      AtOf(before, e, rest + after);
      assert Fits(pieces[0]);
      SpecPieces(before + e, pieces[1..], after, total);
      assert (pieces + [Nop(9)])[1..] == pieces[1..] + [Nop(9)];
    }
  }

  lemma Regrouped(before: Bytes, e: Bytes, rest: Bytes, after: Bytes)
    ensures before + (e + rest) + after == before + e + (rest + after) == (before + e) + rest + after
  {
  }

  /** The end token of the specification, and quiet bytes behind it. */
  lemma LastPiece(before: Bytes, after: Bytes, total: nat)
    requires |before| % 4 == 0 && |before| + 4 <= total
    requires Quiet(before + [0, 0, 0, 9] + after, |before| + 4, PadTo4(total))
    ensures PiecesAt(before + [0, 0, 0, 9] + after, |before|, total, [] + [Nop(9)])
  {
    hide Stops, Quiet, HasAt;
    var blob := before + [0, 0, 0, 9] + after;
    AtOf(before, [0, 0, 0, 9], after);
    OtherBytes(9);
    QuietStops(blob, |before| + 4, total);
    assert [] + [Nop(9)] == [Nop(9)] && [Nop(9)][1..] == [];
    assert Fits(Nop(9));
  }

  lemma {:induction false} StripWithNop(pieces: seq<Piece>, w: bv32)
    ensures Strip(pieces + [Nop(w)]) == Strip(pieces)
  {
    if pieces == [] {
      assert [] + [Nop(w)] == [Nop(w)] && [Nop(w)][1..] == [] && Strip([Nop(w)]) == [] + Strip([]);
    } else {
      StripWithNop(pieces[1..], w);
      assert (pieces + [Nop(w)])[1..] == pieces[1..] + [Nop(w)];
    }
  }

  /** The reader handles a blob of the specification, strings block behind the structure block,
      although it takes its end token for no operation, if what lies behind is quiet up to a
      whole word. */
  lemma SpecTree(size: bv32, start: bv32, strings: bv32, others: Bytes, root: Node, pieces: seq<Piece>,
      names: Bytes, behind: Bytes)
    requires |others| >= 24 && Strip(pieces) == Flatten([root])
    requires forall i :: 0 <= i < |pieces| ==> Fits(pieces[i])
    requires NamesAt(names, 0, pieces)
    requires var h := Header(size, start, strings, others); var p := SpecAll(pieces);
      Number(start) == |h| && |h| % 4 == 0 && Number(strings) == |h + p| && Number(size) == |h + p + names|
      && Quiet(h + p + (names + behind), |h + p|, PadTo4(Number(size)))
    ensures var memory := Header(size, start, strings, others) + SpecAll(pieces) + (names + behind);
      HasMagic(memory) && TreeBlob(memory, root, pieces + [Nop(9)])
  {
    hide Number, WordAt, SpecAll, PiecesAt, NamesAt, Strip, Flatten, Quiet;
    var h, p := Header(size, start, strings, others), SpecAll(pieces);
    var memory := h + p + (names + behind);
    HeaderWords(size, start, strings, others, p + (names + behind));
    assert memory == h + (p + (names + behind));
    SpecPieces(h, pieces, names + behind, Number(size));
    StripWithNop(pieces, 9);
    NamesWithNop(names, behind, pieces);
    NamesFurtherOn(h + p, names + behind, pieces + [Nop(9)]);
  }

  lemma NamesWithNop(names: Bytes, behind: Bytes, pieces: seq<Piece>)
    requires NamesAt(names, 0, pieces)
    ensures NamesAt(names + behind, 0, pieces + [Nop(9)])
  {
    hide HasAt, Number;
    var all := pieces + [Nop(9)];
    forall i | 0 <= i < |all| && all[i].Property?
      ensures HasAt(names + behind, 0 + Number(all[i].prop.offset), all[i].prop.name + [0])
    {
      assert all[i] == pieces[i];
      StillAt(names, behind, 0 + Number(all[i].prop.offset), all[i].prop.name + [0]);
    }
  }

  lemma StillAt(memory: Bytes, behind: Bytes, p: nat, s: Bytes)
    requires HasAt(memory, p, s)
    ensures HasAt(memory + behind, p, s)
  {
    assert (memory + behind)[p..p + |s|] == memory[p..p + |s|];
  }

  /** Aligning an address four bytes up, from a base that is aligned. */
  lemma AlignFromBase(base: nat, p: nat)
    requires base % 4 == 0 && base + p + 3 < Size()
    ensures 4 < Size() && Align(base + p, 4) == base + PadTo4(p)
  {
    hide Pow2, And, Align, Aligned;
    FourIsPow2();
    AlignIs(base + p, 2);
    MultipleOf4(Align(base + p, 4));
  }

  lemma FourIsPow2()
    ensures Pow2(2) == 4
  {
  }

  lemma MultipleOf4(r: nat)
    requires Aligned(r, 2)
    ensures r % 4 == 0
  {
  }

  /** What lies at p when a node begins there, and where the next piece is. */
  lemma BeginAt(blob: Bytes, p: nat, name: Bytes)
    requires HasAt(blob, p, Encode(Begin(name))) && p % 4 == 0
    ensures p + 4 <= |blob| && WordAt(blob, p) == BEGIN_NODE
    ensures HasAt(blob, p + 4, name + [0])
    ensures p + |Encode(Begin(name))| == PadTo4(p + 4 + |name| + 1) <= |blob|
  {
    hide Number, WordAt, Big, PadTo4;
    PadAfter(p, 4 + |name| + 1);
    PadAfter(4, |name| + 1);
    var e := Encode(Begin(name));
    assert e[0..4] == Big(BEGIN_NODE) && e[4..4 + |name| + 1] == name + [0];
    Inside(blob, p, e, 0, 4);
    Inside(blob, p, e, 4, 4 + |name| + 1);
    WordOf(blob, p, BEGIN_NODE);
  }

  lemma Joined(a: Bytes, b: Bytes, c: Bytes, d: Bytes, n: nat)
    requires |a| == |b| == |c| == 4 && n <= |d|
    ensures var e := a + b + c + d;
      e[0..4] == a && e[4..8] == b && e[8..12] == c && e[12..12 + n] == d[..n]
  {
  }

  lemma PropertyLayout(prop: Prop)
    ensures var e := Encode(Property(prop)); var n := |prop.value|;
      |e| == 12 + PadTo4(n) && e[0..4] == Big(PROP) && e[4..8] == Big(prop.length)
      && e[8..12] == Big(prop.offset) && e[12..12 + n] == prop.value
  {
    hide Big;
    var d := Padded(prop.value);
    assert d[..|prop.value|] == prop.value;
    Joined(Big(PROP), Big(prop.length), Big(prop.offset), d, |prop.value|);
  }

  lemma PropertyAt(blob: Bytes, p: nat, prop: Prop)
    requires HasAt(blob, p, Encode(Property(prop))) && p % 4 == 0
    ensures p + 12 <= |blob| && WordAt(blob, p) == PROP
    ensures WordAt(blob, p + 4) == prop.length && WordAt(blob, p + 8) == prop.offset
    ensures HasAt(blob, p + 12, prop.value)
    ensures p + |Encode(Property(prop))| == PadTo4(p + 12 + |prop.value|) <= |blob|
  {
    hide Number, WordAt, Big, Encode, PadTo4;
    var e := Encode(Property(prop));
    var n := |prop.value|;
    PadAfter(p, 12 + n);
    PadAfter(12, n);
    PropertyLayout(prop);
    Inside(blob, p, e, 0, 4);
    Inside(blob, p, e, 4, 8);
    Inside(blob, p, e, 8, 12);
    Inside(blob, p, e, 12, 12 + n);
    WordOf(blob, p, PROP);
    WordOf(blob, p + 4, prop.length);
    WordOf(blob, p + 8, prop.offset);
  }

  method StringLength(memory: Bytes, p: nat) returns (n: nat)
    requires exists q :: p <= q < |memory| && memory[q] == 0
    ensures n == |StringAt(memory, p, 0)|
  {
    n := 0;
    while memory[p + n] != 0
      invariant p + n < |memory| && n + |StringAt(memory, p + n, 0)| == |StringAt(memory, p, 0)|
      invariant exists q :: p + n <= q < |memory| && memory[q] == 0
      decreases |memory| - n
    {
      n := n + 1;
    }
  }

  lemma ShowMore(blob: Bytes, calls: seq<Call>, done: seq<Owned>, node: int, name: Bytes, strings: nat,
      value: nat, prop: Prop)
    requires AllShown(blob, calls, done) && node >= 0 && StringAt(blob, node, 0) == name
    requires HasAt(blob, value, prop.value) && StringAt(blob, strings + Number(prop.offset), 0) == prop.name
    ensures AllShown(blob, calls + [Call(node, strings + Number(prop.offset), value, ToInt(|prop.value|))],
      done + [Owned(name, prop)])
  {
  }

  /** The first piece that means anything begins the root. */
  lemma BeginsFirst(rest: seq<Piece>, root: Node)
    requires Strip(rest) == Flatten([root])
    ensures rest != []
    ensures rest[0].Nop? ==> Strip(rest[1..]) == Flatten([root])
    ensures !rest[0].Nop? ==> rest[0].Begin?
  {
    assert Flatten([root])[0].Begin?;
    if !rest[0].Nop? {
      assert Strip(rest)[0] == rest[0];
    } else {
      assert [] + Strip(rest[1..]) == Strip(rest[1..]);
    }
  }

  // What the reader finds at the next piece.

  lemma NextEmpty(blob: Bytes, p: nat, total: nat, rest: seq<Piece>)
    requires PiecesAt(blob, p, total, rest) && p % 4 == 0
    ensures rest != [] ==> p < total
    ensures p < total ==> p + 4 <= |blob|
    ensures p < total && rest == [] && WordAt(blob, p) != END ==>
      WordAt(blob, p) != BEGIN_NODE && WordAt(blob, p) != PROP && PiecesAt(blob, p + 4, total, [])
    ensures rest != [] && rest[0].End? ==> WordAt(blob, p) == END_NODE && PiecesAt(blob, p + 4, total, rest[1..])
    ensures rest != [] && rest[0].Nop? ==> WordAt(blob, p) == rest[0].word && PiecesAt(blob, p + 4, total, rest[1..])
  {
    hide Number, WordAt, Big, Padded;
    if rest != [] && rest[0].End? {
      WordOf(blob, p, END_NODE);
    } else if rest != [] && rest[0].Nop? {
      WordOf(blob, p, rest[0].word);
    }
  }

  lemma ZeroBehind(blob: Bytes, p: nat, name: Bytes)
    requires p < |blob| && blob[p..p + 1] == (name + [0])[|name|..|name| + 1]
    ensures blob[p] == 0
  {
    assert (name + [0])[|name|..|name| + 1] == [0];
    assert blob[p] == blob[p..p + 1][0];
  }

  lemma NextBegin(blob: Bytes, p: nat, total: nat, rest: seq<Piece>)
    requires PiecesAt(blob, p, total, rest) && p % 4 == 0 && rest != [] && rest[0].Begin?
    ensures p + 4 <= |blob| && WordAt(blob, p) == BEGIN_NODE
    ensures var name := rest[0].name; var n := PadTo4(p + 4 + |name| + 1);
      StringAt(blob, p + 4, 0) == name && (exists q :: p + 4 <= q < |blob| && blob[q] == 0)
      && n <= |blob| && PiecesAt(blob, n, total, rest[1..])
  {
    hide Number, WordAt, Encode, StringAt;
    var name := rest[0].name;
    assert rest[0] == Begin(name);
    BeginAt(blob, p, name);
    StringAtIs(blob, p + 4, name, 0);
    Inside(blob, p + 4, name + [0], |name|, |name| + 1);
    ZeroBehind(blob, p + 4 + |name|, name);
  }

  lemma NextProperty(blob: Bytes, p: nat, total: nat, strings: nat, rest: seq<Piece>)
    requires PiecesAt(blob, p, total, rest) && NamesAt(blob, strings, rest) && p % 4 == 0
    requires rest != [] && rest[0].Property?
    ensures p + 12 <= |blob| && WordAt(blob, p) == PROP
    ensures var prop := rest[0].prop; var n := PadTo4(p + 12 + |prop.value|);
      Number(WordAt(blob, p + 4)) == |prop.value| && WordAt(blob, p + 8) == prop.offset
      && HasAt(blob, p + 12, prop.value) && StringAt(blob, strings + Number(prop.offset), 0) == prop.name
      && n <= |blob| && PiecesAt(blob, n, total, rest[1..])
  {
    hide Number, WordAt, Encode, StringAt, HasAt;
    var prop := rest[0].prop;
    assert rest[0] == Property(prop);
    PropertyAt(blob, p, prop);
    StringAtIs(blob, strings + Number(prop.offset), prop.name, 0);
  }

  lemma NamesOfRest(blob: Bytes, strings: nat, rest: seq<Piece>)
    requires NamesAt(blob, strings, rest) && rest != []
    ensures NamesAt(blob, strings, rest[1..])
  {
  }

  // The loop.

  /** Every property of the tree is shown to the callback once, in preorder, with the
      name of its node, its own name, its value and its length. */
  method Traverse(blob: Bytes, base: nat, ghost root: Node, ghost pieces: seq<Piece>) returns (calls: seq<Call>)
    requires |blob| >= 40 && (HasMagic(blob) ==> TreeBlob(blob, root, pieces))
    requires base % 4 == 0 && base + |blob| + 3 < Size()
    ensures !HasMagic(blob) ==> calls == []
    ensures HasMagic(blob) ==> AllShown(blob, calls, Preorder([root]))
  {
    hide Number, WordAt, Align, PadTo4, StringAt, Size, AllShown, Preorder, TreeBlob, Reading;
    calls := [];
    if WordAt(blob, 0) != MAGIC {
      return;
    }
    var p := Number(WordAt(blob, 8));
    var strings := Number(WordAt(blob, 12));
    var node := NIL;
    ghost var total, rest, name, done := Number(WordAt(blob, 4)), pieces, [], [];
    ghost var ended := false;
    Start(blob, root, pieces);
    while p < Number(WordAt(blob, 4))
      invariant !ended && Reading(blob, strings, total, root, p, rest, node, name, calls, done)
      decreases total - p
    {
      if rest == [] {
        ReadRest(blob, strings, total, root, p, node, name, calls, done);
      } else if rest[0].Begin? {
        ReadBegin(blob, strings, total, root, p, rest, node, name, calls, done);
      } else if rest[0].Property? {
        ReadProperty(blob, strings, total, root, p, rest, node, name, calls, done);
      } else {
        ReadOther(blob, strings, total, root, p, rest, node, name, calls, done);
      }
      var token := WordAt(blob, p);
      p := p + 4;
      if token == BEGIN_NODE {
        node := p;
        var n := StringLength(blob, node);
        AlignFromBase(base, p + n + 1);
        p := Align(base + p + n + 1, 4) - base;
        name := rest[0].name;
      } else if token == PROP {
        var length := Number(WordAt(blob, p));
        var offset := Number(WordAt(blob, p + 4));
        p := p + 8;
        var value := p;
        AlignFromBase(base, p + length);
        p := Align(base + p + length, 4) - base;
        calls := calls + [Call(node, strings + offset, value, ToInt(length))];
        done := done + [Owned(name, rest[0].prop)];
      } else if token == END {
        AllRead(blob, strings, total, root, p - 4, rest, node, name, calls, done);
        ended := true;
        break;
      }
      rest := if rest == [] then [] else rest[1..];
    }
    if !ended {
      AllRead(blob, strings, total, root, p, rest, node, name, calls, done);
    }
  }

  /** What holds between two pieces: what is still to be reported completes the list,
      and no property comes before the root has begun. */
  ghost predicate Reading(blob: Bytes, strings: nat, total: nat, root: Node, p: nat, rest: seq<Piece>, node: int,
      name: Bytes, calls: seq<Call>, done: seq<Owned>) {
    p % 4 == 0 && PiecesAt(blob, p, total, rest) && NamesAt(blob, strings, rest)
    && AllShown(blob, calls, done) && done + Reported(rest, name) == Preorder([root])
    && (node == NIL ==> Strip(rest) == Flatten([root]))
    && (node != NIL ==> node >= 0 && StringAt(blob, node, 0) == name)
  }

  lemma Start(blob: Bytes, root: Node, pieces: seq<Piece>)
    requires HasMagic(blob) && TreeBlob(blob, root, pieces)
    ensures Number(WordAt(blob, 4)) <= |blob|
    ensures Reading(blob, Number(WordAt(blob, 12)), Number(WordAt(blob, 4)), root, Number(WordAt(blob, 8)), pieces,
      NIL, [], [], [])
  {
    hide Number, WordAt, Flatten, Preorder, NamesAt, PiecesAt;
    StripReportsSame(pieces, []);
    ReportedIsPreorder([root], []);
    assert [] + Reported(pieces, []) == Reported(pieces, []);
  }

  /** When the reader stops, everything has been reported. */
  lemma AllRead(blob: Bytes, strings: nat, total: nat, root: Node, p: nat, rest: seq<Piece>, node: int, name: Bytes,
      calls: seq<Call>, done: seq<Owned>)
    requires Reading(blob, strings, total, root, p, rest, node, name, calls, done) && (p >= total || rest == [])
    ensures AllShown(blob, calls, Preorder([root]))
  {
    hide Number, WordAt, Flatten, Preorder, NamesAt, AllShown, PiecesAt;
    NextEmpty(blob, p, total, rest);
    assert done + [] == done;
  }

  /** Words behind the tree. */
  lemma ReadRest(blob: Bytes, strings: nat, total: nat, root: Node, p: nat, node: int, name: Bytes, calls: seq<Call>,
      done: seq<Owned>)
    requires Reading(blob, strings, total, root, p, [], node, name, calls, done) && p < total
    ensures p + 4 <= |blob| && WordAt(blob, p) != BEGIN_NODE && WordAt(blob, p) != PROP
    ensures WordAt(blob, p) != END ==> Reading(blob, strings, total, root, p + 4, [], node, name, calls, done)
  {
    hide Number, WordAt, Flatten, Preorder, NamesAt, AllShown, PiecesAt;
    NextEmpty(blob, p, total, []);
  }

  lemma ReadOther(blob: Bytes, strings: nat, total: nat, root: Node, p: nat, rest: seq<Piece>, node: int, name: Bytes,
      calls: seq<Call>, done: seq<Owned>)
    requires Reading(blob, strings, total, root, p, rest, node, name, calls, done)
    requires rest != [] && (rest[0].End? || rest[0].Nop?)
    ensures p + 4 <= |blob| && p < total && (WordAt(blob, p) == END_NODE || WordAt(blob, p) > 3)
    ensures Reading(blob, strings, total, root, p + 4, rest[1..], node, name, calls, done)
  {
    hide Number, WordAt, Flatten, Preorder, NamesAt, AllShown;
    NextEmpty(blob, p, total, rest);
    NamesOfRest(blob, strings, rest);
    if node == NIL {
      BeginsFirst(rest, root);
    }
  }

  lemma ReadBegin(blob: Bytes, strings: nat, total: nat, root: Node, p: nat, rest: seq<Piece>, node: int, name: Bytes,
      calls: seq<Call>, done: seq<Owned>)
    requires Reading(blob, strings, total, root, p, rest, node, name, calls, done)
    requires rest != [] && rest[0].Begin?
    ensures p + 4 <= |blob| && p < total && WordAt(blob, p) == BEGIN_NODE
    ensures StringAt(blob, p + 4, 0) == rest[0].name && exists q :: p + 4 <= q < |blob| && blob[q] == 0
    ensures var next := PadTo4(p + 4 + |rest[0].name| + 1);
      next <= |blob| && Reading(blob, strings, total, root, next, rest[1..], p + 4, rest[0].name, calls, done)
  {
    hide Number, WordAt, Flatten, Preorder, NamesAt, AllShown, PiecesAt, StringAt;
    NextBegin(blob, p, total, rest);
    NextEmpty(blob, p, total, rest);
    NamesOfRest(blob, strings, rest);
  }

  lemma ReadProperty(blob: Bytes, strings: nat, total: nat, root: Node, p: nat, rest: seq<Piece>, node: int,
      name: Bytes, calls: seq<Call>, done: seq<Owned>)
    requires Reading(blob, strings, total, root, p, rest, node, name, calls, done)
    requires rest != [] && rest[0].Property?
    ensures p + 12 <= |blob| && p < total && WordAt(blob, p) == PROP
    ensures Number(WordAt(blob, p + 4)) == |rest[0].prop.value|
    ensures var prop := rest[0].prop; var next := PadTo4(p + 12 + |prop.value|);
      var call := Call(node, strings + Number(WordAt(blob, p + 8)), p + 12, ToInt(|prop.value|));
      next <= |blob|
      && Reading(blob, strings, total, root, next, rest[1..], node, name, calls + [call], done + [Owned(name, prop)])
  {
    hide Number, WordAt, Flatten, Preorder, NamesAt, AllShown, PiecesAt, StringAt, HasAt, Reported, Strip, PadTo4;
    var prop := rest[0].prop;
    if node == NIL {
      BeginsFirst(rest, root);
    }
    NextProperty(blob, p, total, strings, rest);
    NextEmpty(blob, p, total, rest);
    NamesOfRest(blob, strings, rest);
    ShowMore(blob, calls, done, node, name, strings, p + 12, prop);
    OneReported(done, rest, name);
  }

  lemma OneReported(done: seq<Owned>, rest: seq<Piece>, name: Bytes)
    requires rest != [] && rest[0].Property?
    ensures done + Reported(rest, name) == done + [Owned(name, rest[0].prop)] + Reported(rest[1..], name)
  {
  }

  // One blob of the specification, byte by byte.

  function ExampleHeader(): Bytes {
    [0xD0, 0x0D, 0xFE, 0xED, 0, 0, 0, 76, 0, 0, 0, 40, 0, 0, 0, 72,
     0, 0, 0, 0, 0, 0, 0, 0, 0, 0, 0, 0, 0, 0, 0, 0, 0, 0, 0, 0, 0, 0, 0, 0]
  }

  function ExampleStructure(): Bytes {
    [0, 0, 0, 1, 0, 0, 0, 0,
     0, 0, 0, 3, 0, 0, 0, 4, 0, 0, 0, 0, 1, 2, 3, 4,
     0, 0, 0, 2, 0, 0, 0, 9]
  }

  function ExampleStrings(): Bytes {
    [0x72, 0x65, 0x67, 0]
  }

  /** Its root has the property "reg" with the value 1, 2, 3, 4: that is what the callback is
      shown, and nothing else. */
  method TraverseExample() returns (blob: Bytes, calls: seq<Call>)
    ensures blob == ExampleHeader() + ExampleStructure() + ExampleStrings()
    ensures |calls| == 1 && calls[0].node >= 0 && StringAt(blob, calls[0].node, 0) == []
    ensures StringAt(blob, calls[0].prop, 0) == [0x72, 0x65, 0x67]
    ensures HasAt(blob, calls[0].value, [1, 2, 3, 4]) && calls[0].length == 4
  {
    hide ExampleHeader, ExampleStructure, ExampleStrings, HasMagic, TreeBlob, StringAt, HasAt, Preorder;
    blob := ExampleHeader() + ExampleStructure() + ExampleStrings();
    ghost var prop := Prop([0x72, 0x65, 0x67], [1, 2, 3, 4], 4, 0);
    ghost var root := Node([], [prop], []);
    ghost var pieces := [Begin([]), Property(prop), End];
    ExampleTree(prop, root, pieces);
    ExampleSize();
    calls := Traverse(blob, 0, root, pieces + [Nop(9)]);
    ExamplePreorder(prop, root);
    assert Shows(blob, calls[0], Owned([], prop));
  }

  lemma ExampleSize()
    ensures |ExampleHeader()| == 40 && |ExampleStructure()| == 32 && |ExampleStrings()| == 4 && 79 < Size()
  {
    Pow2Grows(7, 64);
    assert Pow2(7) == 128;
  }

  lemma ExamplePreorder(prop: Prop, root: Node)
    requires root == Node([], [prop], [])
    ensures Preorder([root]) == [Owned([], prop)]
  {
    assert [root][1..] == [] && [prop][1..] == [];
    assert OwnedBy([], []) == [] && OwnedBy([], [prop]) == [Owned([], prop)];
    assert Preorder([]) == [];
  }

  lemma ExampleTree(prop: Prop, root: Node, pieces: seq<Piece>)
    requires prop == Prop([0x72, 0x65, 0x67], [1, 2, 3, 4], 4, 0)
    requires root == Node([], [prop], []) && pieces == [Begin([]), Property(prop), End]
    ensures var blob := ExampleHeader() + ExampleStructure() + ExampleStrings();
      HasMagic(blob) && TreeBlob(blob, root, pieces + [Nop(9)])
  {
    hide ExampleHeader, ExampleStructure, ExampleStrings, Header, SpecAll, HasMagic, TreeBlob, Quiet, Big, Encode,
         Strip, Flatten, NamesAt, Fits, Number, PadTo4;
    var others, names := Filled(24, 0 as bv8), ExampleStrings();
    ExampleHeaderIs(others);
    ExamplePieces(prop, pieces);
    ExampleSize();
    ExampleFlat(prop, root, pieces);
    ExampleQuiet(ExampleHeader(), ExampleStructure());
    ExampleNames(pieces, prop);
    ExampleNumbers();
    assert names + [] == names;
    SpecTree(76, 40, 72, others, root, pieces, names, []);
  }

  lemma ExampleNumbers()
    ensures Number(40) == 40 && Number(72) == 72 && Number(76) == 76 && PadTo4(76) == 76
  {
  }

  lemma ExampleHeaderIs(others: Bytes)
    requires others == Filled(24, 0)
    ensures Header(76, 40, 72, others) == ExampleHeader()
  {
    hide Big;
    MagicBytes();
    SmallWords(76);
    SmallWords(40);
    SmallWords(72);
  }

  lemma ExamplePieces(prop: Prop, pieces: seq<Piece>)
    requires prop == Prop([0x72, 0x65, 0x67], [1, 2, 3, 4], 4, 0)
    requires pieces == [Begin([]), Property(prop), End]
    ensures SpecAll(pieces) == ExampleStructure()
  {
    hide Encode;
    ExampleEncoded(prop);
    assert pieces[1..] == [Property(prop), End] && pieces[1..][1..] == [End] && [End][1..] == [];
    assert SpecAll([End]) == Encode(End) + SpecAll([]);
    assert SpecAll([Property(prop), End]) == Encode(Property(prop)) + SpecAll([End]);
  }

  lemma ExampleEncoded(prop: Prop)
    requires prop == Prop([0x72, 0x65, 0x67], [1, 2, 3, 4], 4, 0)
    ensures Encode(Begin([])) == [0, 0, 0, 1, 0, 0, 0, 0] && Encode(End) == [0, 0, 0, 2]
    ensures Encode(Property(prop)) == [0, 0, 0, 3, 0, 0, 0, 4, 0, 0, 0, 0, 1, 2, 3, 4]
  {
    hide Big;
    SmallWords(0);
    SmallWords(1);
    SmallWords(2);
    SmallWords(3);
    SmallWords(4);
  }

  lemma ExampleFlat(prop: Prop, root: Node, pieces: seq<Piece>)
    requires root == Node([], [prop], []) && pieces == [Begin([]), Property(prop), End]
    requires prop == Prop([0x72, 0x65, 0x67], [1, 2, 3, 4], 4, 0)
    ensures Strip(pieces) == Flatten([root]) && forall i :: 0 <= i < |pieces| ==> Fits(pieces[i])
  {
    ExampleStrip(prop);
    ExampleFlatten(prop, root);
    assert Number(4) == 4 && 0 !in prop.name;
  }

  lemma ExampleStrip(prop: Prop)
    ensures Strip([Begin([]), Property(prop), End]) == [Begin([]), Property(prop), End]
  {
    assert [Begin([]), Property(prop), End][1..] == [Property(prop), End];
    assert [Property(prop), End][1..] == [End] && [End][1..] == [];
    assert Strip([]) == [] && Strip([End]) == [End];
  }

  lemma ExampleFlatten(prop: Prop, root: Node)
    requires root == Node([], [prop], [])
    ensures Flatten([root]) == [Begin([]), Property(prop), End]
  {
    assert [root][1..] == [] && [prop][1..] == [];
    assert Flatten([]) == [] && Properties([]) == [] && Properties([prop]) == [Property(prop)];
  }

  lemma ExampleQuiet(h: Bytes, p: Bytes)
    requires |h| == 40 && |p| == 32
    ensures Quiet(h + p + ExampleStrings(), 72, 76)
  {
    forall k | 72 <= k < 76
      ensures (h + p + ExampleStrings())[k] == ExampleStrings()[k - 72]
    {
    }
  }

  lemma ExampleNames(pieces: seq<Piece>, prop: Prop)
    requires prop.name == [0x72, 0x65, 0x67] && prop.offset == 0
    requires pieces == [Begin([]), Property(prop), End]
    ensures NamesAt(ExampleStrings(), 0, pieces)
  {
    assert prop.name + [0] == ExampleStrings() && Number(0) == 0;
  }
}
