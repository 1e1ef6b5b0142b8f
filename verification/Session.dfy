/**
 Restore-mode batching of add and del commands into netlink messages: what the session buffers, when it
 sends, and why nothing is lost, repeated or reordered.
 */
module Session {
  const ATTR_HDR: nat := 4
  const HEADER: nat := 28          // nlmsghdr, nfgenmsg and the protocol attribute
  const LINENO: nat := 8
  const ERRMSG: nat := 20          // MNL_ALIGN(sizeof(struct nlmsgerr)), kept free in the buffer
  const NEST_MAX: nat := 4
  const MAXNAMELEN: nat := 32

  /** Other: any command that is never batched, or none yet. */
  datatype Cmd = Add | Del | Other

  /** How the policy table says an attribute is put: a nested address, a fixed number of bytes, a string, or not at all. */
  datatype Policy = Address | Fixed(bytes: nat) | Text(max: nat) | Never

  const ADT_MAX: int := 30

  /** adt_attrs[], by attribute number. */
  function PolicyOf(i: int): Policy {
    if i in {1, 2, 20, 22} then Address          // ip, ip_to, ip2, ip2_to
    else if i in {3, 7, 21} then Fixed(1)        // cidr, proto, cidr2
    else if i in {4, 5, 29} then Fixed(2)        // port, port_to, skbqueue
    else if i in {6, 8, 9, 10, 28} then Fixed(4) // timeout, cadt_flags, lineno, mark, skbprio
    else if i in {24, 25, 27} then Fixed(8)      // bytes, packets, skbmark
    else if i == 17 then Fixed(6)                // ether
    else if i in {18, 19} then Text(MAXNAMELEN)  // name, nameref
    else if i == 23 then Text(16)                // iface
    else if i == 26 then Text(256)               // comment
    else Never
  }

  /** The fields of an element that are set, by attribute number, each with its bytes. */
  type Fields = map<int, seq<nat>>

  /** What the data blob can hold: an address of either family, a value of its size, a string that fits its field. */
  predicate FieldsOk(d: Fields) {
    forall i :: i in d ==>
      match PolicyOf(i)
      case Address => |d[i]| in {4, 16}
      case Fixed(n) => |d[i]| == n
      case Text(max) => |d[i]| < max
      case Never => false
  }

  datatype Elem = Elem(data: Fields, line: nat)

  datatype Nest = Adt | Data

  /** A message is a sequence of these. Closing a nest only fixes its length field. */
  datatype Token =
    | Header(cmd: Cmd)
    | Setname(name: string)
    | Lineno(line: nat)
    | Open(nest: Nest)
    | Value(attr: int, value: seq<nat>)
    | Close

  /** nested[]: where a nest was opened, as a position among the tokens and in bytes. */
  datatype Mark = Unset | Mark(pos: nat, off: nat)

  /** One message: elements of one command on one set; lineno 0 outside restore mode. */
  datatype Batch = Batch(cmd: Cmd, setname: string, lineno: nat, elems: seq<Elem>)

  /** One issued command. */
  datatype Item = Item(cmd: Cmd, setname: string, elem: Elem)

  // ---------- Messages ----------

  /** MNL_ALIGN. */
  function Align(n: nat): nat {
    (n + 3) / 4 * 4
  }

  /** The bytes an attribute takes. */
  function Growth(i: int, v: seq<nat>): nat {
    match PolicyOf(i)
    case Address => ATTR_HDR + ATTR_HDR + Align(|v|)
    case Text(_) => ATTR_HDR + Align(|v| + 1)
    case _ => ATTR_HDR + Align(|v|)
  }

  /** The bytes its check for room counts: a string's maximum, not its length. */
  function Need(i: int, v: seq<nat>): nat {
    match PolicyOf(i)
    case Text(max) => ATTR_HDR + Align(max)
    case _ => Growth(i, v)
  }

  function Bytes(t: Token): nat {
    match t
    case Header(_) => HEADER
    case Setname(name) => ATTR_HDR + Align(|name| + 1)
    case Lineno(_) => LINENO
    case Open(_) => ATTR_HDR
    case Value(i, v) => Growth(i, v)
    case Close => 0
  }

  function Size(s: seq<Token>): nat {
    if s == [] then 0 else Size(s[..|s| - 1]) + Bytes(s[|s| - 1])
  }

  /** The set fields from attribute i on, in attribute order. */
  function Values(d: Fields, i: int): seq<Token>
    decreases ADT_MAX + 1 - i
  {
    if i > ADT_MAX then [] else (if i in d then [Value(i, d[i])] else []) + Values(d, i + 1)
  }

  /** The nested data attribute of one element. */
  function ElemTokens(e: Elem): seq<Token> {
    [Open(Data)] + Values(e.data, 1) + [Lineno(e.line)] + [Close]
  }

  function ElemsTokens(es: seq<Elem>): seq<Token> {
    if es == [] then [] else ElemsTokens(es[..|es| - 1]) + ElemTokens(es[|es| - 1])
  }

  function Front(b: Batch): seq<Token> {
    [Header(b.cmd)] + [Setname(b.setname)] + if b.lineno != 0 then [Lineno(b.lineno)] + [Open(Adt)] else []
  }

  /** The buffer of a batch that may still grow. */
  function Buffered(b: Batch): seq<Token> {
    Front(b) + ElemsTokens(b.elems)
  }

  /** The message as sent. */
  function Sent(b: Batch): seq<Token> {
    Buffered(b) + if b.lineno != 0 then [Close] else []
  }

  lemma {:induction false} SizeAppend(a: seq<Token>, b: seq<Token>)
    ensures Size(a + b) == Size(a) + Size(b)
  {
    if b == [] {
      assert a + b == a;
    } else {
      SizeAppend(a, b[..|b| - 1]);
      assert (a + b)[..|a + b| - 1] == a + b[..|b| - 1];
    }
  }

  lemma SizeOne(t: Token)
    ensures Size([t]) == Bytes(t)
  {
    assert [t][..0] == [];
  }

  lemma SizePush(s: seq<Token>, t: Token)
    ensures Size(s + [t]) == Size(s) + Bytes(t)
  {
    SizeAppend(s, [t]);
    SizeOne(t);
  }

  lemma Grow(b: Batch, e: Elem)
    ensures Buffered(b.(elems := b.elems + [e])) == Buffered(b) + ElemTokens(e)
  {
    assert (b.elems + [e])[..|b.elems|] == b.elems;
  }

  // ---------- Nesting ----------

  /** Depth after each token, from depth d: never negative, never above two. */
  predicate Nested(s: seq<Token>, d: int, end: int) {
    && 0 <= d <= 2
    && if s == [] then d == end else Nested(s[1..], if s[0].Open? then d + 1 else if s[0].Close? then d - 1 else d, end)
  }

  lemma {:induction false} NestedAppend(a: seq<Token>, b: seq<Token>, d: int, m: int, end: int)
    requires Nested(a, d, m) && Nested(b, m, end)
    ensures Nested(a + b, d, end)
  {
    if a == [] {
      assert a + b == b;
    } else {
      assert (a + b)[1..] == a[1..] + b;
      NestedAppend(a[1..], b, if a[0].Open? then d + 1 else if a[0].Close? then d - 1 else d, m, end);
    }
  }

  lemma {:induction false} ValuesNested(e: Fields, i: int, d: int)
    requires 0 <= d <= 2
    ensures Nested(Values(e, i), d, d)
    decreases ADT_MAX + 1 - i
  {
    if i <= ADT_MAX {
      ValuesNested(e, i + 1, d);
      if i in e {
        NestedOne(Value(i, e[i]), d, d);
        NestedAppend([Value(i, e[i])], Values(e, i + 1), d, d, d);
      } else {
        assert [] + Values(e, i + 1) == Values(e, i + 1);
      }
    }
  }

  lemma NestedOne(t: Token, d: int, end: int)
    requires 0 <= d <= 2 && 0 <= end <= 2 && end == if t.Open? then d + 1 else if t.Close? then d - 1 else d
    ensures Nested([t], d, end)
  {
    assert [t][1..] == [];
  }

  lemma ElemNested(e: Elem, d: int)
    requires 0 <= d <= 1
    ensures Nested(ElemTokens(e), d, d)
  {
    NestedOne(Open(Data), d, d + 1);
    ValuesNested(e.data, 1, d + 1);
    NestedAppend([Open(Data)], Values(e.data, 1), d, d + 1, d + 1);
    NestedOne(Lineno(e.line), d + 1, d + 1);
    NestedAppend([Open(Data)] + Values(e.data, 1), [Lineno(e.line)], d, d + 1, d + 1);
    NestedOne(Close, d + 1, d);
    NestedAppend([Open(Data)] + Values(e.data, 1) + [Lineno(e.line)], [Close], d, d + 1, d);
  }

  lemma {:induction false} ElemsNested(es: seq<Elem>, d: int)
    requires 0 <= d <= 1
    ensures Nested(ElemsTokens(es), d, d)
  {
    if es != [] {
      ElemsNested(es[..|es| - 1], d);
      ElemNested(es[|es| - 1], d);
      NestedAppend(ElemsTokens(es[..|es| - 1]), ElemTokens(es[|es| - 1]), d, d, d);
    }
  }

  /** Every message sent is balanced and at most two levels deep. */
  lemma SentNested(b: Batch)
    ensures Nested(Sent(b), 0, 0)
  {
    NestedOne(Header(b.cmd), 0, 0);
    NestedOne(Setname(b.setname), 0, 0);
    NestedAppend([Header(b.cmd)], [Setname(b.setname)], 0, 0, 0);
    var d := if b.lineno != 0 then 1 else 0;
    if b.lineno != 0 {
      NestedOne(Lineno(b.lineno), 0, 0);
      NestedOne(Open(Adt), 0, 1);
      NestedAppend([Lineno(b.lineno)], [Open(Adt)], 0, 0, 1);
      NestedAppend([Header(b.cmd)] + [Setname(b.setname)], [Lineno(b.lineno)] + [Open(Adt)], 0, 0, 1);
      NestedOne(Close, 1, 0);
    } else {
      assert [Header(b.cmd)] + [Setname(b.setname)] + [] == [Header(b.cmd)] + [Setname(b.setname)];
      assert Buffered(b) + [] == Buffered(b);
    }
    ElemsNested(b.elems, d);
    NestedAppend(Front(b), ElemsTokens(b.elems), 0, d, d);
    if b.lineno != 0 {
      NestedAppend(Buffered(b), [Close], 0, 1, 0);
    }
  }

  // ---------- What a message says ----------

  /** A message begins with its command and set name, then the line and the nest of a restore, which is closed at the end. */
  lemma SentBegins(b: Batch)
    ensures var s := Sent(b);
            && |s| >= 2 && s[0] == Header(b.cmd) && s[1] == Setname(b.setname)
            && (b.lineno != 0 ==> |s| >= 5 && s[2] == Lineno(b.lineno) && s[3] == Open(Adt) && s[|s| - 1] == Close)
  {
  }

  /** Every field of every element is in it, and its line. */
  lemma SentHolds(b: Batch, k: nat, i: int)
    requires k < |b.elems|
    ensures Lineno(b.elems[k].line) in Sent(b)
    ensures 1 <= i <= ADT_MAX && i in b.elems[k].data ==> Value(i, b.elems[k].data[i]) in Sent(b)
  {
    hide ElemTokens;
    ElemHolds(b.elems[k], i);
    ElemsHold(b.elems, k);
    assert forall t :: t in ElemsTokens(b.elems) ==> t in Sent(b);
  }

  lemma ElemHolds(e: Elem, i: int)
    ensures Lineno(e.line) in ElemTokens(e)
    ensures 1 <= i <= ADT_MAX && i in e.data ==> Value(i, e.data[i]) in ElemTokens(e)
  {
    hide Values;
    assert Lineno(e.line) in [Lineno(e.line)];
    if 1 <= i <= ADT_MAX && i in e.data {
      ValuesHold(e.data, 1, i);
    }
  }

  lemma {:induction false} ValuesHold(d: Fields, from: int, i: int)
    requires from <= i <= ADT_MAX && i in d
    ensures Value(i, d[i]) in Values(d, from)
    decreases i - from
  {
    if from < i {
      ValuesHold(d, from + 1, i);
    } else {
      assert Value(i, d[i]) in [Value(i, d[i])];
    }
  }

  lemma {:induction false} ElemsHold(es: seq<Elem>, k: nat)
    requires k < |es|
    ensures forall t :: t in ElemTokens(es[k]) ==> t in ElemsTokens(es)
  {
    hide ElemTokens;
    if k < |es| - 1 {
      ElemsHold(es[..|es| - 1], k);
    }
  }

  // ---------- Reading a message back ----------

  function ReadValues(s: seq<Token>): (r: (Fields, seq<Token>))
    ensures |r.1| <= |s|
  {
    if s != [] && s[0].Value? then
      var (d, rest) := ReadValues(s[1..]);
      (d[s[0].attr := s[0].value], rest)
    else (map[], s)
  }

  function ReadElems(s: seq<Token>): seq<Elem>
    decreases |s|
  {
    if s == [] || s[0] != Open(Data) then []
    else
      var (d, rest) := ReadValues(s[1..]);
      if |rest| < 2 || !rest[0].Lineno? then [] else [Elem(d, rest[0].line)] + ReadElems(rest[2..])
  }

  ghost predicate BatchOk(b: Batch) {
    forall i :: 0 <= i < |b.elems| ==> FieldsOk(b.elems[i].data)
  }

  /** What the receiver makes of a message. */
  function Read(s: seq<Token>): Batch {
    if |s| < 2 || !s[0].Header? || !s[1].Setname? then Batch(Other, "", 0, [])
    else if |s| >= 4 && s[2].Lineno? then Batch(s[0].cmd, s[1].name, s[2].line, ReadElems(s[4..]))
    else Batch(s[0].cmd, s[1].name, 0, ReadElems(s[2..]))
  }

  lemma {:induction false} ElemsFront(e: Elem, es: seq<Elem>)
    ensures ElemsTokens([e] + es) == ElemTokens(e) + ElemsTokens(es)
  {
    hide ElemTokens;
    if es == [] {
      assert [e] + es == [e] && [e][..0] == [];
    } else {
      ElemsFront(e, es[..|es| - 1]);
      assert ([e] + es)[..|es|] == [e] + es[..|es| - 1];
    }
  }

  /** The fields from attribute i on. */
  function Rest(d: Fields, i: int): Fields {
    map k | k in d && i <= k <= ADT_MAX :: d[k]
  }

  lemma RestStep(d: Fields, i: int)
    requires i <= ADT_MAX
    ensures Rest(d, i) == if i in d then Rest(d, i + 1)[i := d[i]] else Rest(d, i + 1)
  {
  }

  lemma RestNone(d: Fields, i: int)
    requires i > ADT_MAX
    ensures Rest(d, i) == map[]
  {
  }

  lemma {:induction false} ReadValuesBack(d: Fields, i: int, tail: seq<Token>)
    requires tail != [] && !tail[0].Value?
    ensures ReadValues(Values(d, i) + tail) == (Rest(d, i), tail)
    decreases ADT_MAX + 1 - i
  {
    hide Rest, PolicyOf, FieldsOk;
    if i > ADT_MAX {
      RestNone(d, i);
      assert Values(d, i) + tail == tail;
    } else {
      RestStep(d, i);
      ReadValuesBack(d, i + 1, tail);
      var s := Values(d, i) + tail;
      if i in d {
        ValuesPut(d, i, tail);
      } else {
        assert s == Values(d, i + 1) + tail;
      }
    }
  }

  lemma ValuesPut(d: Fields, i: int, tail: seq<Token>)
    requires i <= ADT_MAX && i in d
    ensures var s := Values(d, i) + tail; s[0] == Value(i, d[i]) && s[1..] == Values(d, i + 1) + tail
  {
  }

  lemma ReadOne(e: Elem, more: seq<Token>)
    requires FieldsOk(e.data)
    ensures ReadElems(ElemTokens(e) + more) == [e] + ReadElems(more)
  {
    hide Values, ReadValues, Rest, FieldsOk;
    var s := ElemTokens(e) + more;
    var after := [Lineno(e.line)] + [Close] + more;
    ReadValuesBack(e.data, 1, after);
    AllFields(e.data);
    assert s[0] == Open(Data) && s[1..] == Values(e.data, 1) + after;
    assert after[2..] == more;
  }

  lemma AllFields(d: Fields)
    requires FieldsOk(d)
    ensures d == Rest(d, 1)
  {
  }

  lemma {:induction false} ReadElemsBack(es: seq<Elem>, tail: seq<Token>)
    requires (tail == [] || tail[0] == Close) && forall i :: 0 <= i < |es| ==> FieldsOk(es[i].data)
    ensures ReadElems(ElemsTokens(es) + tail) == es
  {
    hide ElemTokens, FieldsOk, PolicyOf;
    if es == [] {
      assert ElemsTokens(es) + tail == tail;
    } else {
      MoreElems(es, tail);
      ReadElemsBack(es[1..], tail);
      ReadOne(es[0], ElemsTokens(es[1..]) + tail);
    }
  }

  lemma MoreElems(es: seq<Elem>, tail: seq<Token>)
    requires es != []
    ensures ElemsTokens(es) + tail == ElemTokens(es[0]) + (ElemsTokens(es[1..]) + tail)
  {
    hide ElemTokens, ElemsTokens;
    var a, b := ElemTokens(es[0]), ElemsTokens(es[1..]);
    assert ElemsTokens(es) == a + b by {
      ElemsFront(es[0], es[1..]);
      assert es == [es[0]] + es[1..];
    }
    assert (a + b) + tail == a + (b + tail);
  }

  /** The message determines the batch: the receiver reads back exactly what was put in. */
  lemma ReadSent(b: Batch)
    requires BatchOk(b)
    ensures Read(Sent(b)) == b
  {
    hide ElemsTokens, ReadElems, FieldsOk;
    var s := Sent(b);
    if b.lineno != 0 {
      ReadElemsBack(b.elems, [Close]);
      assert s[4..] == ElemsTokens(b.elems) + [Close];
    } else {
      ReadElemsBack(b.elems, []);
      FirstOpens(b.elems);
      assert s[2..] == ElemsTokens(b.elems) + [];
    }
  }

  lemma FirstOpens(es: seq<Elem>)
    ensures ElemsTokens(es) == [] || ElemsTokens(es)[0] == Open(Data)
  {
    if es != [] {
      ElemsFront(es[0], es[1..]);
      assert es == [es[0]] + es[1..];
    }
  }

  // ---------- Room ----------

  /** BUFFER_FULL. */
  predicate Full(bufsize: nat, len: nat, need: nat) {
    len + need + ERRMSG > bufsize
  }

  /** The attributes from i on and the line number pass their checks for room, starting at len. */
  predicate RoomFor(bufsize: nat, len: nat, d: Fields, i: int)
    decreases ADT_MAX + 1 - i
  {
    if i > ADT_MAX then !Full(bufsize, len, LINENO)
    else if i in d then !Full(bufsize, len, Need(i, d[i])) && RoomFor(bufsize, len + Growth(i, d[i]), d, i + 1)
    else RoomFor(bufsize, len, d, i + 1)
  }

  predicate Fits(bufsize: nat, len: nat, e: Elem) {
    len + ATTR_HDR <= bufsize && RoomFor(bufsize, len + ATTR_HDR, e.data, 1)
  }

  /** What the attributes from i on can need at most: all but the comment are short. */
  function Most(i: int): nat {
    if i > ADT_MAX then 0 else (if i <= 26 then 224 else 0) + (ADT_MAX + 1 - i) * 36
  }

  lemma {:induction false} EnoughRoom(bufsize: nat, len: nat, d: Fields, i: int)
    requires FieldsOk(d) && 1 <= i <= ADT_MAX + 1 && len + Most(i) + LINENO + ERRMSG <= bufsize
    ensures RoomFor(bufsize, len, d, i)
    decreases ADT_MAX + 1 - i
  {
    if i <= ADT_MAX {
      assert i in d ==> Growth(i, d[i]) <= Need(i, d[i]) <= if i == 26 then 260 else 36;
      EnoughRoom(bufsize, if i in d then len + Growth(i, d[i]) else len, d, i + 1);
    }
  }

  /** The largest element: every attribute that add and del have, each as long as it may be. */
  lemma LargestElement(d: Fields)
    requires d.Keys == {1, 2, 3, 4, 5, 6, 7, 8, 9, 10, 17, 18, 19, 20, 21, 22, 23, 24, 25, 26, 27, 28, 29}
    requires forall i :: i in {1, 2, 20, 22} ==> |d[i]| == 16
    requires |d[3]| == 1 && |d[7]| == 1 && |d[21]| == 1 && |d[4]| == 2 && |d[5]| == 2 && |d[29]| == 2
    requires forall i :: i in {6, 8, 9, 10, 28} ==> |d[i]| == 4
    requires |d[24]| == 8 && |d[25]| == 8 && |d[27]| == 8 && |d[17]| == 6
    requires |d[18]| == 31 && |d[19]| == 31 && |d[23]| == 15 && |d[26]| == 255
    ensures FieldsOk(d)
  {
  }

  function FrontSize(setname: string, restoring: bool): nat {
    HEADER + Bytes(Setname(setname)) + if restoring then LINENO + ATTR_HDR else 0
  }

  lemma FrontSizeIs(b: Batch)
    ensures Size(Front(b)) == FrontSize(b.setname, b.lineno != 0)
    ensures Size(Buffered(b)) >= Size(Front(b))
  {
    SizeOne(Header(b.cmd));
    SizePush([Header(b.cmd)], Setname(b.setname));
    SizePush([], Lineno(b.lineno));
    SizePush([Lineno(b.lineno)], Open(Adt));
    SizeAppend([Header(b.cmd)] + [Setname(b.setname)], if b.lineno != 0 then [Lineno(b.lineno)] + [Open(Adt)] else []);
    SizeAppend(Front(b), ElemsTokens(b.elems));
    assert [] + [Lineno(b.lineno)] == [Lineno(b.lineno)];
  }

  /** Every element that the data blob can hold fits a message of its own, whatever the set is called. */
  lemma EveryElementFits(bufsize: nat, setname: string, restoring: bool, e: Elem)
    requires bufsize >= 4096 && |setname| < MAXNAMELEN && FieldsOk(e.data)
    ensures Fits(bufsize, FrontSize(setname, restoring), e)
  {
    EnoughRoom(bufsize, FrontSize(setname, restoring) + ATTR_HDR, e.data, 1);
  }

  // ---------- What was issued, and what was sent ----------

  function Items(b: Batch): seq<Item> {
    seq(|b.elems|, i requires 0 <= i < |b.elems| => Item(b.cmd, b.setname, b.elems[i]))
  }

  function Flatten(bs: seq<Batch>): seq<Item> {
    if bs == [] then [] else Flatten(bs[..|bs| - 1]) + Items(bs[|bs| - 1])
  }

  lemma FlattenPush(bs: seq<Batch>, b: Batch)
    ensures Flatten(bs + [b]) == Flatten(bs) + Items(b)
  {
    assert (bs + [b])[..|bs|] == bs;
  }

  /** What the receiver makes of all messages. */
  function Received(wire: seq<seq<Token>>): seq<Item> {
    Flatten(seq(|wire|, i requires 0 <= i < |wire| => Read(wire[i])))
  }

  lemma ReceivedBatches(wire: seq<seq<Token>>, bs: seq<Batch>)
    requires |wire| == |bs| && forall i :: 0 <= i < |wire| ==> wire[i] == Sent(bs[i]) && BatchOk(bs[i])
    ensures Received(wire) == Flatten(bs)
  {
    hide Read, Sent, BatchOk;
    var r := seq(|wire|, i requires 0 <= i < |wire| => Read(wire[i]));
    forall i | 0 <= i < |wire|
      ensures r[i] == bs[i]
    {
      ReadSent(bs[i]);
    }
    assert r == bs;
  }

  /** Every command issued. */
  function Issued(ops: seq<Op>): seq<Item> {
    if ops == [] then []
    else
      var before := Issued(ops[..|ops| - 1]);
      match ops[|ops| - 1]
      case Batched(cmd, setname, data, line) => before + [Item(cmd, setname, Elem(data, line))]
      case Unbatched(_) => before
  }

  /** One line of input: an add or del, or a command that goes out on its own. */
  datatype Op =
    | Batched(cmd: Cmd, setname: string, data: Fields, line: nat)
    | Unbatched(line: nat)

  /** What the parser and the data blob guarantee: add and del come with a set name and fields of proper length. */
  predicate WellFormed(op: Op) {
    op.Batched? ==> op.cmd != Other && 0 < |op.setname| < MAXNAMELEN && FieldsOk(op.data)
  }

  class SessionState {
    var cmd: Cmd
    var lineno: nat
    var savedSetname: string
    const nested: array<Mark>
    var nestid: nat
    const bufsize: nat
    var buffer: seq<Token>
    var len: nat
    var wire: seq<seq<Token>>
    ghost var pending: Batch
    ghost var batches: seq<Batch>

    /** The buffer is empty, or the batch `pending` with one open nest in restore mode. */
    ghost predicate Valid()
      reads this
    {
      && nested.Length == NEST_MAX && bufsize >= 4096 && len == Size(buffer) && len + ERRMSG <= bufsize
      && (if buffer == [] then nestid == 0 && savedSetname == "" && pending.elems == []
          else
            && buffer == Buffered(pending) && pending.cmd == cmd && BatchOk(pending)
            && nestid == (if pending.lineno != 0 then 1 else 0)
            && (savedSetname != "" ==> savedSetname == pending.setname && pending.lineno != 0))
      && WireOk()
    }

    /** Each message sent is a batch, and leaves the room for an error reply. */
    ghost predicate WireOk()
      reads this`wire, this`batches
    {
      |wire| == |batches| && forall i :: 0 <= i < |wire| ==>
                                     wire[i] == Sent(batches[i]) && BatchOk(batches[i]) && Size(wire[i]) + ERRMSG <= bufsize
    }

    /** Everything taken so far, in order: what was sent and then what is still buffered. */
    ghost function Taken(): seq<Item>
      reads this`batches, this`pending
    {
      Flatten(batches) + Items(pending)
    }

    /** The buffer is one memory page. */
    constructor (pageSize: nat)
      requires pageSize >= 4096
      ensures Valid() && Taken() == [] && fresh(nested) && bufsize == pageSize && wire == [] && batches == []
    {
      cmd, lineno, savedSetname, nestid, bufsize := Other, 0, "", 0, pageSize;
      nested := new Mark[NEST_MAX](_ => Unset);
      buffer, len, wire, batches, pending := [], 0, [], [], Batch(Other, "", 0, []);
    }

    method Push(t: Token)
      requires len == Size(buffer)
      modifies this`buffer, this`len
      ensures buffer == old(buffer) + [t] && len == old(len) + Bytes(t) == Size(buffer)
    {
      SizePush(buffer, t);
      buffer, len := buffer + [t], len + Bytes(t);
    }

    /** open_nested(); true when there is no room. */
    method OpenNested(nest: Nest) returns (full: bool)
      requires len == Size(buffer) && nestid < NEST_MAX == nested.Length
      modifies this`buffer, this`len, this`nestid, nested
      ensures full <==> old(len) + ATTR_HDR > bufsize
      ensures full ==> buffer == old(buffer) && len == old(len) && nestid == old(nestid)
      ensures !full ==> buffer == old(buffer) + [Open(nest)] && nestid == old(nestid) + 1
                        && nested[old(nestid)] == Mark(|old(buffer)|, old(len))
      ensures len == Size(buffer)
    {
      if len + ATTR_HDR > bufsize {
        return true;
      }
      nested[nestid] := Mark(|buffer|, len);
      nestid := nestid + 1;
      Push(Open(nest));
      full := false;
    }

    method CloseNested()
      requires len == Size(buffer) && 0 < nestid <= NEST_MAX == nested.Length
      modifies this`buffer, this`len, this`nestid, nested
      ensures buffer == old(buffer) + [Close] && len == old(len) == Size(buffer) && nestid == old(nestid) - 1
    {
      Push(Close);
      nestid := nestid - 1;
      nested[nestid] := Unset;
    }

    /** mnl_attr_nest_cancel(): the message is cut where the nest began. */
    method CancelNested()
      requires 0 < nestid <= NEST_MAX == nested.Length && nested[nestid - 1].Mark?
      requires nested[nestid - 1].pos <= |buffer| && nested[nestid - 1].off == Size(buffer[..nested[nestid - 1].pos])
      modifies this`buffer, this`len, this`nestid, nested
      ensures buffer == old(buffer)[..old(nested[nestid - 1].pos)] && len == Size(buffer) && nestid == old(nestid) - 1
    {
      var m := nested[nestid - 1];
      buffer, len := buffer[..m.pos], m.off;
      nestid := nestid - 1;
      nested[nestid] := Unset;
    }

    /** addattr_adt(): every set field in attribute order; stops at the first one without room. */
    method AddAttrs(d: Fields) returns (full: bool)
      requires len == Size(buffer)
      modifies this`buffer, this`len
      ensures len == Size(buffer)
      ensures (!full && !Full(bufsize, len, LINENO)) <==> RoomFor(bufsize, old(len), d, 1)
      ensures |old(buffer)| <= |buffer| && buffer[..|old(buffer)|] == old(buffer)
      ensures !full ==> buffer == old(buffer) + Values(d, 1)
    {
      hide Size, Need, Growth, Bytes, Full, RoomFor, Values;
      var i := 1;
      while i <= ADT_MAX
        invariant 1 <= i <= ADT_MAX + 1 && len == Size(buffer)
        invariant |old(buffer)| <= |buffer| && buffer[..|old(buffer)|] == old(buffer)
        invariant buffer + Values(d, i) == old(buffer) + Values(d, 1)
        invariant RoomFor(bufsize, old(len), d, 1) == RoomFor(bufsize, len, d, i)
      {
        FieldStep(bufsize, len, d, i);
        if i in d {
          if Full(bufsize, len, Need(i, d[i])) {
            return true;
          }
          PutField(buffer, d, i);
          BytesOf(i, d[i]);
          Push(Value(i, d[i]));
        }
        i := i + 1;
      }
      FieldEnd(bufsize, len, d, i);
      assert buffer + [] == buffer;
      full := false;
    }

    /** The nested data of one element; without room the message stays as it was. */
    method AddElem(d: Fields) returns (full: bool)
      requires len == Size(buffer) && nestid < NEST_MAX == nested.Length
      modifies this`buffer, this`len, this`nestid, nested
      ensures len == Size(buffer) && nestid == old(nestid)
      ensures !full <==> Fits(bufsize, old(len), Elem(d, lineno))
      ensures buffer == if full then old(buffer) else old(buffer) + ElemTokens(Elem(d, lineno))
      ensures !full ==> len + ERRMSG <= bufsize
    {
      hide Size, Values, Full, RoomFor;
      ghost var was := buffer;
      full := OpenNested(Data);
      if full {
        return;
      }
      SizePush(was, Open(Data));
      full := AddAttrs(d);
      if !full {
        full := Full(bufsize, len, LINENO);
      }
      if full {
        CutBack(was, buffer);
        CancelNested();
        return;
      }
      RoomLeft(bufsize, len);
      Push(Lineno(lineno));
      CloseNested();
      assert buffer == was + ElemTokens(Elem(d, lineno));
    }

    lemma CutBack(was: seq<Token>, now: seq<Token>)
      requires |was| < |now| && now[..|was| + 1] == was + [Open(Data)]
      ensures now[..|was|] == was
    {
      assert now[..|was| + 1][..|was|] == was;
    }

    /** Header, set name and, in restore mode, line number and the nest that the elements go into. */
    method Begin(setname: string)
      requires Valid() && buffer == [] && 0 < |setname| < MAXNAMELEN
      modifies this`buffer, this`len, this`nestid, this`pending, nested
      ensures Valid() && pending == Batch(cmd, setname, lineno, []) && buffer == Buffered(pending) != []
      ensures len == FrontSize(setname, lineno != 0)
    {
      hide Sent, WireOk;
      pending := Batch(cmd, setname, lineno, []);
      FrontSizeIs(pending);
      Push(Header(cmd));
      Push(Setname(setname));
      if lineno != 0 {
        Push(Lineno(lineno));
        var _ := OpenNested(Adt);
      }
      assert buffer == Front(pending) == Buffered(pending);
    }

    /** build_msg() for add and del; true when the element found no room. */
    method Build(aggregate: bool, setname: string, d: Fields) returns (full: bool)
      requires Valid() && 0 < |setname| < MAXNAMELEN && FieldsOk(d)
      requires if aggregate then buffer != [] && pending.setname == setname else buffer == []
      modifies this`buffer, this`len, this`nestid, this`pending, nested
      ensures Valid() && buffer != [] && pending.setname == setname
      ensures var b := if aggregate then old(pending) else Batch(cmd, setname, lineno, []);
              var l := if aggregate then old(len) else FrontSize(setname, lineno != 0);
              var e := Elem(d, lineno);
              full == !Fits(bufsize, l, e) && pending == if full then b else b.(elems := b.elems + [e])
    {
      hide Buffered, ElemTokens, Fits, Size, Sent, FrontSize, Flatten, Items, WireOk, FieldsOk;
      if !aggregate {
        Begin(setname);
      }
      ghost var b, e := pending, Elem(d, lineno);
      full := AddElem(d);
      if !full {
        Grow(b, e);
        pending := b.(elems := b.elems + [e]);
      }
    }

    /** The same in terms of what is taken: an empty buffer always has room. */
    method BuildTaken(aggregate: bool, setname: string, d: Fields) returns (full: bool)
      requires Valid() && 0 < |setname| < MAXNAMELEN && FieldsOk(d)
      requires if aggregate then buffer != [] && pending.setname == setname && pending.lineno != 0 else buffer == []
      modifies this`buffer, this`len, this`nestid, this`pending, nested
      ensures Valid() && buffer != [] && pending.setname == setname
      ensures pending.lineno == if aggregate then old(pending.lineno) else lineno
      ensures Taken() == if full then old(Taken()) else old(Taken()) + [Item(cmd, setname, Elem(d, lineno))]
      ensures full ==> aggregate
      ensures full ==> pending == old(pending)
      ensures aggregate ==> full == old(!Fits(bufsize, len, Elem(d, lineno)))
      ensures !full ==> pending == if aggregate then old(pending.(elems := pending.elems + [Elem(d, lineno)]))
                                   else Batch(cmd, setname, lineno, [Elem(d, lineno)])
    {
      hide Buffered, Sent, Flatten, Items, Fits, FrontSize, WireOk, FieldsOk;
      ItemsNone();
      ghost var e := Elem(d, lineno);
      if aggregate {
        ItemsPush(pending, e);
      }
      EveryElementFits(bufsize, setname, lineno != 0, e);
      full := Build(aggregate, setname, d);
      ItemsOne(cmd, setname, lineno, e);
    }

    /** ipset_commit(), the query succeeding: close what is open, send, and start over. */
    method Commit()
      requires Valid()
      modifies this`buffer, this`len, this`nestid, this`savedSetname, this`wire, this`pending, this`batches, nested
      ensures Valid() && buffer == [] && Taken() == old(Taken()) && pending.elems == []
      ensures batches == if old(buffer) == [] then old(batches) else old(batches) + [old(pending)]
    {
      hide Buffered, Size, Flatten, Items;
      ItemsNone();
      if len == 0 {
        EmptyBuffer();
        return;
      }
      var i := nestid;
      ghost var was := buffer;
      while i > 0
        modifies this`buffer, this`len, this`nestid, nested
        invariant 0 <= i == nestid <= old(nestid) && len == old(len) == Size(buffer)
        invariant buffer == if i < old(nestid) then was + [Close] else was
      {
        CloseNested();
        i := i - 1;
      }
      SentAs(pending);
      wire := wire + [buffer];
      FlattenPush(batches, pending);
      assert old(Taken()) == Flatten(batches + [pending]);
      batches := batches + [pending];
      pending := Batch(Other, "", 0, []);
      savedSetname, nestid, buffer, len := "", 0, [], 0;
      SizeNone();
    }

    /** Only an empty buffer has length zero. */
    lemma EmptyBuffer()
      requires Valid() && len == 0
      ensures buffer == []
    {
      if buffer != [] {
        FrontSizeIs(pending);
        assert false;
      }
    }

    /** The command goes on with the message begun: same command, same set, both from lines of a restore. */
    predicate Continues(c: Cmd, setname: string)
      reads this`lineno, this`cmd, this`savedSetname
    {
      lineno != 0 && c == cmd && setname == savedSetname
    }

    /**
     ipset_cmd() for add and del: the element is taken after all that came before it, in the same message
     as those when the command goes on with it and the element fits.
     */
    method Command(c: Cmd, setname: string, d: Fields, line: nat)
      requires Valid() && c != Other && 0 < |setname| < MAXNAMELEN && FieldsOk(d)
      modifies this, nested
      ensures Valid() && (line == 0 ==> buffer == [])
      ensures Taken() == old(Taken()) + [Item(c, setname, Elem(d, line))]
      ensures line != 0 ==> Continues(c, setname) && lineno == line && buffer != []
      ensures line != 0 && old(Continues(c, setname) && buffer != [] && Fits(bufsize, len, Elem(d, line))) ==>
                batches == old(batches) && pending == old(pending).(elems := old(pending).elems + [Elem(d, line)])
      ensures line != 0 && old(!Continues(c, setname) || buffer == [] || !Fits(bufsize, len, Elem(d, line))) ==>
                && batches == (if old(buffer) == [] then old(batches) else old(batches) + [old(pending)])
                && pending == Batch(c, setname, line, [Elem(d, line)])
    {
      hide Buffered, Size, Sent, Flatten, Items, Taken, WireOk, FieldsOk, BatchOk, Fits;
      var aggregate := Continues(c, setname);
      if !aggregate {
        Commit();
      }
      cmd, lineno := c, line;
      var full := BuildTaken(aggregate, setname, d);
      if full {
        Commit();
        full := BuildTaken(false, setname, d);
      }
      if lineno != 0 {
        savedSetname := setname;
        return;
      }
      Commit();
    }

    /** Any other command: the batch goes out first. */
    method OtherCommand(line: nat)
      requires Valid()
      modifies this, nested
      ensures Valid() && buffer == [] && Taken() == old(Taken())
    {
      hide Buffered, Size, Sent, Flatten, Items, Taken, WireOk, FieldsOk, BatchOk;
      Commit();
      cmd, lineno := Other, line;
    }

    /**
     A whole restore: what the receiver makes of the messages sent are the issued commands, nothing lost,
     repeated or reordered; each message is balanced and at most two nests deep.
     */
    method Restore(ops: seq<Op>)
      requires Valid() && Taken() == [] && forall i :: 0 <= i < |ops| ==> WellFormed(ops[i])
      modifies this, nested
      ensures Valid() && buffer == [] && Received(wire) == Issued(ops)
      ensures forall i :: 0 <= i < |wire| ==> Nested(wire[i], 0, 0) && Size(wire[i]) + ERRMSG <= bufsize
    {
      hide Buffered, Size, Sent, Flatten, Items, Taken, FieldsOk;
      TakenFlat();
      var i := 0;
      while i < |ops|
        invariant 0 <= i <= |ops| && Valid() && Taken() == Issued(ops[..i])
      {
        assert ops[..i + 1][..i] == ops[..i];
        match ops[i] {
          case Batched(c, setname, d, line) => Command(c, setname, d, line);
          case Unbatched(line) => OtherCommand(line);
        }
        i := i + 1;
      }
      assert ops[..i] == ops;
      Commit();
      TakenFlat();
      ReceivedBatches(wire, batches);
      forall i | 0 <= i < |wire|
        ensures Nested(wire[i], 0, 0)
      {
        SentNested(batches[i]);
      }
    }

    lemma TakenFlat()
      ensures pending.elems == [] ==> Taken() == Flatten(batches)
    {
      if pending.elems == [] {
        assert Items(pending) == [];
        assert Flatten(batches) + [] == Flatten(batches);
      }
    }
  }

  lemma BytesOf(i: int, v: seq<nat>)
    ensures Bytes(Value(i, v)) == Growth(i, v)
  {
  }

  lemma FieldStep(bufsize: nat, len: nat, d: Fields, i: int)
    requires i <= ADT_MAX
    ensures RoomFor(bufsize, len, d, i) ==
            if i in d then !Full(bufsize, len, Need(i, d[i])) && RoomFor(bufsize, len + Growth(i, d[i]), d, i + 1)
            else RoomFor(bufsize, len, d, i + 1)
    ensures i !in d ==> Values(d, i) == Values(d, i + 1)
  {
  }

  lemma FieldEnd(bufsize: nat, len: nat, d: Fields, i: int)
    requires i > ADT_MAX
    ensures RoomFor(bufsize, len, d, i) == !Full(bufsize, len, LINENO) && Values(d, i) == []
  {
  }

  /** Putting the next set field. */
  lemma PutField(s: seq<Token>, d: Fields, i: int)
    requires i <= ADT_MAX && i in d
    ensures s + Values(d, i) == (s + [Value(i, d[i])]) + Values(d, i + 1)
  {
  }

  lemma SentAs(b: Batch)
    ensures Sent(b) == if b.lineno != 0 then Buffered(b) + [Close] else Buffered(b)
  {
  }

  lemma RoomLeft(bufsize: nat, len: nat)
    ensures !Full(bufsize, len, LINENO) ==> len + LINENO + ERRMSG <= bufsize
  {
  }

  lemma SizeNone()
    ensures Size([]) == 0
  {
  }

  lemma ItemsNone()
    ensures Items(Batch(Other, "", 0, [])) == []
    ensures forall b: Batch :: b.elems == [] ==> Items(b) == []
  {
  }

  lemma ItemsPush(b: Batch, e: Elem)
    ensures Items(b.(elems := b.elems + [e])) == Items(b) + [Item(b.cmd, b.setname, e)]
  {
  }

  lemma ItemsOne(cmd: Cmd, setname: string, line: nat, e: Elem)
    ensures Items(Batch(cmd, setname, line, [])) == []
    ensures Items(Batch(cmd, setname, line, [] + [e])) == [Item(cmd, setname, e)]
  {
  }
}
