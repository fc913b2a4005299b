/**
 Netlink attributes (nl_attr_add, nl_attr_nest_start and nl_attr_nest_end in tools/daemon/nl.c): a
 tree of attributes is written into a message buffer in place, an attribute that does not fit being
 silently left out, and the lengths of nested attributes filled in afterwards.
 */
module Netlink {
  import opened Options

  const NLMSG_BUF: nat := 16384

  type Byte = b: nat | b < 256
  type Short = n: nat | n < 65536

  datatype Attr =
    | Leaf(kind: Short, data: seq<Byte>)
    | Nest(kind: Short, kids: seq<Attr>)

  function Align4(n: nat): (r: nat)
    ensures r % 4 == 0 && n <= r < n + 4
  {
    (n + 3) / 4 * 4
  }

  /** A 16-bit number, least significant byte first. */
  function Le16(n: nat): (s: seq<Byte>)
    ensures |s| == 2
  {
    [n % 256, n / 256 % 256]
  }

  function Un16(s: seq<Byte>): Short
    requires |s| >= 2
  {
    var lo: nat, hi: nat := s[0], s[1];
    lo + 256 * hi
  }

  lemma Le16RoundTrip(n: Short, rest: seq<Byte>)
    ensures Un16(Le16(n) + rest) == n
  {
  }

  function Header(len: nat, kind: Short): (s: seq<Byte>)
    ensures |s| == 4
  {
    Le16(len) + Le16(kind)
  }

  function Zeros(n: nat): (s: seq<Byte>)
    ensures |s| == n
  {
    seq(n, _ => 0)
  }

  // ---------- the bytes of an attribute tree ----------

  /** The length of an encoded attribute, in units of four bytes. */
  ghost function Units(a: Attr): (n: nat)
    ensures n >= 1
  {
    if a.Leaf? then (7 + |a.data|) / 4 else 1 + UnitsAll(a.kids)
  }

  ghost function UnitsAll(as_: seq<Attr>): nat {
    if as_ == [] then 0 else Units(as_[0]) + UnitsAll(as_[1..])
  }

  function Encode(a: Attr): (s: seq<Byte>)
    ensures |s| == 4 * Units(a)
  {
    match a
    case Leaf(kind, data) => Header(4 + |data|, kind) + data + Zeros(Align4(4 + |data|) - 4 - |data|)
    case Nest(kind, kids) => Header(4 + |EncodeAll(kids)|, kind) + EncodeAll(kids)
  }

  lemma LeafBytes(kind: Short, data: seq<Byte>)
    ensures var e, size := Encode(Leaf(kind, data)), Align4(4 + |data|);
            |e| == size && e == Header(4 + |data|, kind) + data + Zeros(size - 4 - |data|)
  {
  }

  function EncodeAll(as_: seq<Attr>): (s: seq<Byte>)
    ensures |s| == 4 * UnitsAll(as_)
  {
    if as_ == [] then [] else Encode(as_[0]) + EncodeAll(as_[1..])
  }

  // ---------- reading it back ----------

  /** What a reader has to know beforehand: which attributes hold others. */
  datatype Shape = Flat | Nested(kids: seq<Shape>)

  function ShapeOf(a: Attr): Shape {
    match a
    case Leaf(_, _) => Flat
    case Nest(_, kids) => Nested(ShapesOf(kids))
  }

  function ShapesOf(as_: seq<Attr>): (r: seq<Shape>)
    ensures |r| == |as_|
  {
    if as_ == [] then [] else [ShapeOf(as_[0])] + ShapesOf(as_[1..])
  }

  /** Reads one attribute, using its length field for the payload. */
  function DecodeOne(shape: Shape, s: seq<Byte>): Option<Attr>
    requires |s| >= 4
    decreases shape, 1
  {
    var len, kind := Un16(s), Un16(s[2..]);
    if len < 4 || len > |s| then None
    else
      match shape
      case Flat => Some(Leaf(kind, s[4..len]))
      case Nested(kids) =>
        match DecodeAll(kids, s[4..len])
        case None => None
        case Some(as_) => Some(Nest(kind, as_))
  }

  /** Walks a run of attributes by their aligned lengths. */
  function DecodeAll(shapes: seq<Shape>, s: seq<Byte>): Option<seq<Attr>>
    decreases shapes, 0
  {
    if shapes == [] then (if s == [] then Some([]) else None)
    else if |s| < 4 then None
    else
      var size := Align4(Un16(s));
      match DecodeOne(shapes[0], s)
      case None => None
      case Some(a) =>
        if size > |s| then None
        else
          match DecodeAll(shapes[1..], s[size..])
          case None => None
          case Some(as_) => Some([a] + as_)
  }

  /** Walking the encoding of any attribute tree gives the tree back: types, payloads, nesting. */
  lemma {:induction false} RoundTripOne(a: Attr, rest: seq<Byte>)
    requires |Encode(a)| < 65536
    ensures DecodeOne(ShapeOf(a), Encode(a) + rest) == Some(a)
    ensures Align4(Un16(Encode(a) + rest)) == |Encode(a)|
    decreases a, 1
  {
    match a
    case Leaf(kind, data) =>
      RoundTripLeaf(kind, data, rest);
    case Nest(kind, kids) =>
      RoundTripAll(kids);
      RoundTripNest(kind, kids, EncodeAll(kids), rest);
  }

  lemma RoundTripNest(kind: Short, kids: seq<Attr>, body: seq<Byte>, rest: seq<Byte>)
    requires 4 + |body| < 65536 && body == EncodeAll(kids) && DecodeAll(ShapesOf(kids), body) == Some(kids)
    ensures var s := Encode(Nest(kind, kids)) + rest;
            DecodeOne(ShapeOf(Nest(kind, kids)), s) == Some(Nest(kind, kids)) && Align4(Un16(s)) == 4 + |body|
  {
    hide DecodeAll, EncodeAll, ShapesOf, Header, Un16;
    var s := Encode(Nest(kind, kids)) + rest;
    assert s == Header(4 + |body|, kind) + (body + rest);
    hide Encode;
    HeaderReads(4 + |body|, kind, body + rest, s);
    assert s[4..4 + |body|] == body;
  }

  lemma RoundTripLeaf(kind: Short, data: seq<Byte>, rest: seq<Byte>)
    requires |Encode(Leaf(kind, data))| < 65536
    ensures var s := Encode(Leaf(kind, data)) + rest;
            DecodeOne(Flat, s) == Some(Leaf(kind, data)) && Align4(Un16(s)) == |Encode(Leaf(kind, data))|
  {
    var pad := Zeros(Align4(4 + |data|) - 4 - |data|);
    var s := Encode(Leaf(kind, data)) + rest;
    assert s == Header(4 + |data|, kind) + (data + pad + rest);
    hide Encode, Header;
    HeaderReads(4 + |data|, kind, data + pad + rest, s);
    assert s[4..4 + |data|] == data;
  }

  lemma HeaderReads(len: Short, kind: Short, rest: seq<Byte>, s: seq<Byte>)
    requires s == Header(len, kind) + rest
    ensures Un16(s) == len && Un16(s[2..]) == kind
  {
    assert s == Le16(len) + (Le16(kind) + rest);
    assert s[2..] == Le16(kind) + rest;
    Le16RoundTrip(len, Le16(kind) + rest);
    Le16RoundTrip(kind, rest);
  }

  lemma {:induction false} RoundTripAll(as_: seq<Attr>)
    requires |EncodeAll(as_)| < 65536
    ensures DecodeAll(ShapesOf(as_), EncodeAll(as_)) == Some(as_)
    decreases as_, 0
  {
    if as_ != [] {
      var rest := EncodeAll(as_[1..]);
      RoundTripOne(as_[0], rest);
      RoundTripAll(as_[1..]);
      assert EncodeAll(as_)[|Encode(as_[0])|..] == rest;
      assert [as_[0]] + as_[1..] == as_;
    }
  }

  // ---------- what fits ----------

  /** The part of an attribute that is written when `room` bytes are left. */
  function KeepOne(a: Attr, room: nat): (r: Option<Attr>)
    ensures r.Some? ==> |Encode(r.value)| <= room
    decreases a, 1
  {
    match a
    case Leaf(_, _) => if |Encode(a)| <= room then Some(a) else None
    case Nest(kind, kids) => if room < 4 then None else Some(Nest(kind, Keep(kids, room - 4)))
  }

  /** Attribute by attribute: what does not fit is skipped, and later ones may still fit. */
  function Keep(as_: seq<Attr>, room: nat): (r: seq<Attr>)
    ensures |EncodeAll(r)| <= room
    decreases as_, 0
  {
    if as_ == [] then []
    else
      match KeepOne(as_[0], room)
      case None => Keep(as_[1..], room)
      case Some(a) =>
        var rest := Keep(as_[1..], room - |Encode(a)|);
        assert ([a] + rest)[1..] == rest;
        [a] + rest
  }

  function Written(a: Attr, room: nat): (s: seq<Byte>)
    ensures |s| <= room
  {
    match KeepOne(a, room)
    case None => []
    case Some(k) => Encode(k)
  }

  function WrittenAll(as_: seq<Attr>, room: nat): (s: seq<Byte>)
    ensures |s| <= room
  {
    EncodeAll(Keep(as_, room))
  }

  /** A tree whose encoding fits is kept whole. */
  lemma {:induction false} KeepOneAll(a: Attr, room: nat)
    requires |Encode(a)| <= room
    ensures KeepOne(a, room) == Some(a)
    decreases a, 1
  {
    if a.Nest? {
      KeepAll(a.kids, room - 4);
    }
  }

  lemma {:induction false} KeepAll(as_: seq<Attr>, room: nat)
    requires |EncodeAll(as_)| <= room
    ensures Keep(as_, room) == as_
    decreases as_, 0
  {
    if as_ != [] {
      KeepOneAll(as_[0], room);
      KeepAll(as_[1..], room - |Encode(as_[0])|);
      assert [as_[0]] + as_[1..] == as_;
    }
  }

  /** A message with what fits of an attribute added. */
  ghost function After(s: seq<Byte>, a: Attr): (r: seq<Byte>)
    requires |s| <= NLMSG_BUF
    ensures |s| <= |r| <= NLMSG_BUF
  {
    s + Written(a, NLMSG_BUF - |s|)
  }

  ghost function AfterAll(s: seq<Byte>, as_: seq<Attr>): (r: seq<Byte>)
    requires |s| <= NLMSG_BUF
    ensures |s| <= |r| <= NLMSG_BUF
  {
    s + WrittenAll(as_, NLMSG_BUF - |s|)
  }

  /** A message with the header of a nested attribute added, if it fits. */
  ghost function Started(s: seq<Byte>, kind: Short): (r: seq<Byte>)
    requires |s| <= NLMSG_BUF
    ensures |s| <= |r| <= NLMSG_BUF || |s| % 4 != 0
  {
    if |s| + 4 <= NLMSG_BUF then s + Header(4, kind) else s
  }

  /** A message with the length of the nested attribute at `nest`, if there is one, filled in. */
  ghost function Ended(s: seq<Byte>, nest: nat): seq<Byte>
    requires nest <= |s|
  {
    if nest + 4 <= |s| then s[..nest] + Le16(|s| - nest) + s[nest + 2..] else s
  }

  // ---------- writing it in place ----------

  /** The message buffer behind a request: header and body, then zeros. */
  class Message {
    const buf: array<Byte>
    var len: nat

    ghost predicate Valid()
      reads this, buf
    {
      && buf.Length == NLMSG_BUF + 36 && len % 4 == 0 && len <= NLMSG_BUF
      && ZerosFollow()
    }

    ghost predicate ZerosFollow()
      reads this, buf
    {
      forall i | len <= i < buf.Length :: buf[i] == 0
    }

    ghost function Bytes(): (s: seq<Byte>)
      requires len <= buf.Length
      reads this, buf
      ensures |s| == len
    {
      buf[..len]
    }

    /** tc_req leaves a message with its fixed part, here given as bytes. */
    constructor (fixed: seq<Byte>)
      requires |fixed| % 4 == 0 && |fixed| <= 36
      ensures Valid() && Bytes() == fixed && fresh(buf)
    {
      buf := new Byte[NLMSG_BUF + 36](i => if 0 <= i < |fixed| then fixed[i] else 0);
      len := |fixed|;
    }

    /** Copies bytes into the buffer; everything else stays. */
    method Write(at: nat, data: seq<Byte>)
      requires at + |data| <= buf.Length
      modifies buf
      ensures buf[..] == old(buf[..at]) + data + old(buf[at + |data|..])
    {
      for i := 0 to |data|
        invariant buf[..] == old(buf[..at]) + data[..i] + old(buf[at + i..])
      {
        buf[at + i] := data[i];
      }
    }

    /** Adds bytes at the end, padded with the zeros that are there already. */
    method Append(bytes: seq<Byte>, size: nat)
      requires Valid() && |bytes| <= size && size % 4 == 0 && len + size <= NLMSG_BUF
      modifies this, buf
      ensures Valid() && Bytes() == old(Bytes()) + (bytes + Zeros(size - |bytes|))
    {
      hide Zeros;
      ghost var before := buf[..];
      Write(len, bytes);
      ghost var after := buf[..];
      Appended(before, after, len, bytes, size);
      len := len + size;
      assert Bytes() == after[..len] && before[..old(len)] == old(Bytes()) && ZerosFollow();
    }

    /** nl_attr_add */
    method AttrAdd(kind: Short, data: seq<Byte>)
      requires Valid()
      modifies this, buf
      ensures Valid()
      ensures var e := Encode(Leaf(kind, data));
              Bytes() == if old(len) + |e| <= NLMSG_BUF then old(Bytes()) + e else old(Bytes())
    {
      LeafBytes(kind, data);
      var aligned, size := Align4(len), Align4(4 + |data|);
      assert aligned == len;
      hide Align4, Encode, Header, Zeros, Bytes, ZerosFollow;
      if aligned + size > NLMSG_BUF {
        return;
      }
      Append(Header(4 + |data|, kind) + data, size);
    }

    /** nl_attr_nest_start: an attribute without payload, and the place of its header. */
    method NestStart(kind: Short) returns (nest: nat)
      requires Valid()
      modifies this, buf
      ensures Valid() && nest == old(len)
      ensures Bytes() == Started(old(Bytes()), kind)
    {
      nest := Align4(len);
      AttrAdd(kind, []);
      assert Encode(Leaf(kind, [])) == Header(4, kind);
    }

    /** nl_attr_nest_end: the length of a nested attribute is everything written since it began. */
    method NestEnd(nest: nat) returns (rtaLen: nat)
      requires Valid() && nest <= len && nest % 4 == 0
      modifies buf
      ensures Valid() && rtaLen == len - nest
      ensures Bytes() == Ended(old(Bytes()), nest)
    {
      assert Align4(len) == len;
      hide Align4, Le16, Ended;
      rtaLen := Align4(len) - nest;
      ghost var before := buf[..];
      Write(nest, Le16(rtaLen));
      ghost var after := buf[..];
      Patched(before, after, len, nest);
      assert before[..len] == old(Bytes()) && after[..len] == Bytes();
    }

    /** Builds one attribute with the calls above, the nested ones between start and end. */
    method Build(a: Attr)
      requires Valid()
      modifies this, buf
      ensures Valid() && Bytes() == After(old(Bytes()), a)
      decreases a, 1
    {
      match a
      case Leaf(kind, data) =>
        AttrAdd(kind, data);
      case Nest(kind, kids) =>
        NestAfter(Bytes(), kind, kids);
        hide After, AfterAll, Started, Ended, ZerosFollow, Bytes;
        var nest := NestStart(kind);
        BuildAll(kids);
        var rtaLen := NestEnd(nest);
    }

    method BuildAll(as_: seq<Attr>)
      requires Valid()
      modifies this, buf
      ensures Valid() && Bytes() == AfterAll(old(Bytes()), as_)
      decreases as_, 0
    {
      AfterSteps(Bytes(), as_);
      hide After, AfterAll, ZerosFollow, Bytes;
      if as_ != [] {
        Build(as_[0]);
        BuildAll(as_[1..]);
      }
    }
  }

  /** Writing `data` where zeros were appends it, padded to `size` bytes. */
  lemma Appended(before: seq<Byte>, after: seq<Byte>, len: nat, data: seq<Byte>, size: nat)
    requires |data| <= size && len + size <= |before|
    requires forall i | len <= i < |before| :: before[i] == 0
    requires after == before[..len] + data + before[len + |data|..]
    ensures |after| == |before| && forall i | len + size <= i < |after| :: after[i] == 0
    ensures after[..len + size] == before[..len] + (data + Zeros(size - |data|))
  {
  }

  lemma Patched(before: seq<Byte>, after: seq<Byte>, len: nat, nest: nat)
    requires nest <= len <= |before| - 2 && nest % 4 == 0 && len % 4 == 0
    requires forall i | len <= i < |before| :: before[i] == 0
    requires after == before[..nest] + Le16(len - nest) + before[nest + 2..]
    ensures |after| == |before| && forall i | len <= i < |after| :: after[i] == 0
    ensures after[..len] == Ended(before[..len], nest)
  {
  }

  lemma NothingFits(kids: seq<Attr>)
    ensures Keep(kids, 0) == []
  {
    if kids != [] {
      NothingFits(kids[1..]);
    }
  }

  /** Start, the nested attributes and end together write what fits of the whole attribute. */
  lemma NestAfter(s: seq<Byte>, kind: Short, kids: seq<Attr>)
    requires |s| <= NLMSG_BUF && |s| % 4 == 0
    ensures Ended(AfterAll(Started(s, kind), kids), |s|) == After(s, Nest(kind, kids))
  {
    var room, started := NLMSG_BUF - |s|, Started(s, kind);
    WrittenNest(kind, kids, room);
    hide Written, WrittenAll, Header;
    if room >= 4 {
      assert started == s + Header(4, kind) && NLMSG_BUF - |started| == room - 4;
      hide Started;
      var body := WrittenAll(kids, room - 4);
      assert AfterAll(started, kids) == started + body;
      hide AfterAll;
      HeaderPatch(s, kind, body);
    }
  }

  /** An attribute tree that fits, once built, reads back as itself, wherever in the message it is. */
  lemma BuiltReads(s: seq<Byte>, a: Attr)
    requires |s| + |Encode(a)| <= NLMSG_BUF
    ensures After(s, a) == s + Encode(a) && DecodeOne(ShapeOf(a), After(s, a)[|s|..]) == Some(a)
  {
    hide Encode, DecodeOne, ShapeOf, KeepOne;
    KeepOneAll(a, NLMSG_BUF - |s|);
    RoundTripOne(a, []);
    Nothing(Encode(a));
    Tail(s, Encode(a));
  }

  /** The same for a run of trees. */
  lemma AllBuiltRead(s: seq<Byte>, as_: seq<Attr>)
    requires |s| + |EncodeAll(as_)| <= NLMSG_BUF
    ensures AfterAll(s, as_) == s + EncodeAll(as_) && DecodeAll(ShapesOf(as_), AfterAll(s, as_)[|s|..]) == Some(as_)
  {
    hide EncodeAll, DecodeAll, ShapesOf, Keep;
    KeepAll(as_, NLMSG_BUF - |s|);
    RoundTripAll(as_);
    Tail(s, EncodeAll(as_));
  }

  lemma Tail(s: seq<Byte>, t: seq<Byte>)
    ensures (s + t)[|s|..] == t
  {
  }

  lemma Nothing(s: seq<Byte>)
    ensures s + [] == s
  {
  }

  lemma WrittenNest(kind: Short, kids: seq<Attr>, room: nat)
    requires room % 4 == 0
    ensures var w := Written(Nest(kind, kids), room);
            if room == 0 then w == [] && WrittenAll(kids, room) == []
            else var body := WrittenAll(kids, room - 4); w == Header(4 + |body|, kind) + body
  {
    if room == 0 {
      NothingFits(kids);
    }
  }

  lemma AfterSteps(s: seq<Byte>, as_: seq<Attr>)
    requires |s| <= NLMSG_BUF
    ensures AfterAll(s, as_) == if as_ == [] then s else AfterAll(After(s, as_[0]), as_[1..])
  {
    if as_ != [] {
      AfterFirst(s, as_[0], as_[1..], as_);
    }
  }

  lemma AfterFirst(s: seq<Byte>, a: Attr, rest: seq<Attr>, all: seq<Attr>)
    requires |s| <= NLMSG_BUF && all != [] && a == all[0] && rest == all[1..]
    ensures AfterAll(s, all) == AfterAll(After(s, a), rest)
  {
    hide Written, WrittenAll;
    var t, first, written := After(s, a), Written(a, NLMSG_BUF - |s|), WrittenAll(all, NLMSG_BUF - |s|);
    var later := WrittenAll(rest, NLMSG_BUF - |t|);
    assert t == s + first && AfterAll(s, all) == s + written && AfterAll(t, rest) == t + later;
    hide After, AfterAll;
    KeepHead(all, NLMSG_BUF - |s|);
    assert NLMSG_BUF - |t| == NLMSG_BUF - |s| - |first|;
    Joined(s, first, later, written, t);
  }

  lemma Joined(s: seq<Byte>, first: seq<Byte>, later: seq<Byte>, both: seq<Byte>, t: seq<Byte>)
    requires both == first + later && t == s + first
    ensures s + both == t + later
  {
  }

  lemma HeaderPatch(before: seq<Byte>, kind: Short, body: seq<Byte>)
    ensures var s := before + Header(4, kind) + body;
            s[..|before|] + Le16(4 + |body|) + s[|before| + 2..] == before + (Header(4 + |body|, kind) + body)
  {
    var s := before + Header(4, kind) + body;
    assert s[..|before|] == before;
    assert s[|before| + 2..] == Le16(kind) + body;
  }

  lemma KeepHead(as_: seq<Attr>, room: nat)
    requires as_ != []
    ensures var first := Written(as_[0], room);
            WrittenAll(as_, room) == first + WrittenAll(as_[1..], room - |first|)
  {
    match KeepOne(as_[0], room)
    case None =>
    case Some(a) =>
      var rest := Keep(as_[1..], room - |Encode(a)|);
      assert ([a] + rest)[1..] == rest;
  }

  /** The bytes, place by place: length and type least significant byte first, then the payload, then
      zeros up to the next multiple of four. */
  ghost predicate LaidOut(e: seq<Byte>, kind: Short, payload: seq<Byte>) {
    var len := 4 + |payload|;
    && |e| % 4 == 0 && len <= |e| < len + 4
    && e[0] == len % 256 && e[1] == len / 256 && e[2] == kind % 256 && e[3] == kind / 256
    && e[4..len] == payload && forall i | len <= i < |e| :: e[i] == 0
  }

  lemma AttrBytes(a: Attr)
    requires |Encode(a)| < 65536
    ensures LaidOut(Encode(a), a.kind, if a.Leaf? then a.data else EncodeAll(a.kids))
  {
    hide LaidOut, Header, Zeros;
    match a
    case Leaf(kind, data) =>
      LeafBytes(kind, data);
      PartBytes(kind, data, Align4(4 + |data|) - 4 - |data|);
    case Nest(kind, kids) =>
      NestBytes(kind, EncodeAll(kids), Encode(a));
  }

  lemma NestBytes(kind: Short, payload: seq<Byte>, e: seq<Byte>)
    requires e == Header(4 + |payload|, kind) + payload && |payload| % 4 == 0 && |e| < 65536
    ensures LaidOut(e, kind, payload)
  {
    PartBytes(kind, payload, 0);
    assert e == Header(4 + |payload|, kind) + payload + Zeros(0);
  }

  lemma PartBytes(kind: Short, payload: seq<Byte>, pad: nat)
    requires 4 + |payload| < 65536 && pad < 4 && (|payload| + pad) % 4 == 0
    ensures LaidOut(Header(4 + |payload|, kind) + payload + Zeros(pad), kind, payload)
  {
    var len := 4 + |payload|;
    var e := Header(len, kind) + payload + Zeros(pad);
    assert e[0] == Le16(len)[0] && e[1] == Le16(len)[1] && e[2] == Le16(kind)[0] && e[3] == Le16(kind)[1];
  }
}
