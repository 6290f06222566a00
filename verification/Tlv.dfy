/** Tag-length-value data (tlv.c): the builder that patches length fields in place, and the parser. */
module Tlv {
  import opened Bytes
  import opened Buffer

  const TAG_LARGE: byte := 0x40

  datatype Item = Item(tag: byte, value: seq<byte>)

  predicate HasLargeBit(tag: byte) {
    tag / 64 % 2 == 1
  }

  function WithLargeBit(tag: byte): byte {
    SetBit(tag, 64)
  }

  function WithoutLargeBit(tag: byte): byte {
    if HasLargeBit(tag) then tag - 64 else tag
  }

  function HeaderSize(large: bool): nat {
    if large then 3 else 2
  }

  /** Tag and length field, the length cut to the field's width. */
  function Header(large: bool, tag: byte, len: nat): (h: seq<byte>)
    ensures |h| == HeaderSize(large)
  {
    if large then [WithLargeBit(tag), len / 256 % 256, len % 256] else [tag, len % 256]
  }

  function Encode(large: bool, item: Item): seq<byte> {
    Header(large, item.tag, |item.value|) + item.value
  }

  function EncodeAll(large: bool, items: seq<Item>): seq<byte> {
    if items == [] then [] else Encode(large, items[0]) + EncodeAll(large, items[1..])
  }

  /** An item in memory: the tag, as it is or with bit 0x40, then the length in one byte or in two with the
      high one first, then the value. */
  lemma ItemLayout(large: bool, item: Item)
    requires item.tag / 64 % 2 == 0 && |item.value| < if large then 65536 else 256
    ensures var n := |item.value|;
      Encode(large, item) ==
        (if large then [item.tag + 64, n / 256, n % 256] else [item.tag, n]) + item.value
  {
  }

  /** The largest value the builder lets through. The small-tag limit is the source's, above a byte. */
  function MaxLength(large: bool): nat {
    if large then 65535 else 266
  }

  // ---- parsing ----

  /** The item at the head of `s` and what it takes up; an error is no item. */
  datatype Parsed = Malformed | Parsed(item: Item, large: bool, size: nat)

  function ParseOne(s: seq<byte>): (r: Parsed)
    requires s != []
    ensures r.Parsed? ==> 0 < r.size <= |s| && r.item.value != []
  {
    if |s| < 2 then Malformed
    else
      var large := HasLargeBit(s[0]);
      if large && |s| < 3 then Malformed
      else
        var low: int, high: int := if large then s[2] else s[1], if large then s[1] else 0;
        var len := 256 * high + low;
        var header := HeaderSize(large);
        if len == 0 || header + len > |s| then Malformed
        else Parsed(Item(WithoutLargeBit(s[0]), s[header..header + len]), large, header + len)
  }

  /** All items up to the end, or up to the first malformed one. */
  function ParseAll(s: seq<byte>): (r: (bool, seq<Item>))
    decreases |s|
  {
    if s == [] then (true, [])
    else
      var p := ParseOne(s);
      if p.Malformed? then (false, [])
      else
        var (ok, rest) := ParseAll(s[p.size..]);
        (ok, [p.item] + rest)
  }

  /** Whether a large tag is met on the way. */
  predicate MeetsLarge(s: seq<byte>)
    decreases |s|
  {
    s != [] &&
    var p := ParseOne(s);
    p.Parsed? && (p.large || MeetsLarge(s[p.size..]))
  }

  /** The parser learns of large tags exactly from items that were built with them. */
  lemma {:induction false} MeetsWhatWasBuilt(large: bool, items: seq<Item>)
    requires forall i | 0 <= i < |items| :: Sendable(large, items[i])
    ensures MeetsLarge(EncodeAll(large, items)) <==> large && items != []
    decreases |items|
  {
    hide Encode, ParseOne;
    if items != [] {
      var rest := EncodeAll(large, items[1..]);
      var e := Encode(large, items[0]);
      ParseEncoded(large, items[0], rest);
      EncodeSize(large, items[0]);
      MeetsWhatWasBuilt(large, items[1..]);
      assert (e + rest)[|e|..] == rest;
    }
  }

  datatype Option<T> = None | Some(value: T)

  /** The value a list of items leaves under a tag: that of the last item with it. */
  function Lookup(items: seq<Item>, tag: byte, before: Option<seq<byte>>): Option<seq<byte>> {
    if items == [] then before
    else Lookup(items[1..], tag, if items[0].tag == tag then Some(items[0].value) else before)
  }

  /** An item that survives the wire. */
  predicate Sendable(large: bool, item: Item) {
    !HasLargeBit(item.tag) && 1 <= |item.value| <= if large then 65535 else 255
  }

  lemma ParseEncoded(large: bool, item: Item, rest: seq<byte>)
    requires Sendable(large, item)
    ensures ParseOne(Encode(large, item) + rest) == Parsed(item, large, |Encode(large, item)|)
  {
    var s := Encode(large, item) + rest;
    var n, h := |item.value|, HeaderSize(large);
    assert s[..h] == Header(large, item.tag, n);
    assert s[0] == s[..h][0] && s[1] == s[..h][1];
    if large {
      assert s[2] == s[..h][2];
      LargeBit(item.tag);
    }
    assert s[h..h + n] == item.value;
  }

  lemma LargeBit(tag: byte)
    requires !HasLargeBit(tag)
    ensures HasLargeBit(WithLargeBit(tag)) && WithoutLargeBit(WithLargeBit(tag)) == tag
  {
  }

  /** Whatever is parsed could have been sent. */
  lemma ParsedIsSendable(s: seq<byte>)
    requires s != [] && ParseOne(s).Parsed?
    ensures Sendable(ParseOne(s).large, ParseOne(s).item)
  {
  }

  /** An item survives exactly when its tag lacks the large bit and its value is neither empty nor
      too long for the length field, which for small tags holds 255, not the builder's 266. */
  lemma SurvivesExactly(large: bool, item: Item, rest: seq<byte>)
    ensures ParseOne(Encode(large, item) + rest) == Parsed(item, large, |Encode(large, item)|)
      <==> Sendable(large, item)
  {
    hide Encode, ParseOne;
    EncodeNotEmpty(large, item);
    var s := Encode(large, item) + rest;
    if Sendable(large, item) {
      ParseEncoded(large, item, rest);
    } else if ParseOne(s).Parsed? {
      ParsedIsSendable(s);
    }
  }

  /** For one: 256 bytes under a small tag go through the builder, and their length field is 0. */
  lemma SmallTagWrapsLength(tag: byte, value: seq<byte>)
    requires !HasLargeBit(tag) && |value| == 256
    ensures |value| <= MaxLength(false) && ParseOne(Encode(false, Item(tag, value))).Malformed?
  {
    var s := Encode(false, Item(tag, value));
    assert s[..2] == Header(false, tag, 256);
    assert s[0] == s[..2][0] && s[1] == s[..2][1];
  }

  /** Round trip: any list of sendable items parses back to the same list. */
  lemma {:induction false} ItemsRoundTrip(large: bool, items: seq<Item>)
    requires forall i | 0 <= i < |items| :: Sendable(large, items[i])
    ensures ParseAll(EncodeAll(large, items)) == (true, items)
  {
    hide Encode, ParseOne;
    if items != [] {
      var rest := EncodeAll(large, items[1..]);
      ParseEncoded(large, items[0], rest);
      ItemsRoundTrip(large, items[1..]);
      var s := EncodeAll(large, items);
      assert Encode(large, items[0]) != [] by {
        EncodeNotEmpty(large, items[0]);
      }
      assert s[|Encode(large, items[0])|..] == rest;
      assert [items[0]] + items[1..] == items;
    }
  }

  lemma EncodeNotEmpty(large: bool, item: Item)
    ensures Encode(large, item) != []
  {
  }

  lemma {:induction false} EncodeAllAppend(large: bool, items: seq<Item>, item: Item)
    ensures EncodeAll(large, items + [item]) == EncodeAll(large, items) + Encode(large, item)
  {
    hide Encode;
    if items == [] {
      assert [item][1..] == [];
    } else {
      EncodeAllAppend(large, items[1..], item);
      assert (items + [item])[1..] == items[1..] + [item];
    }
  }

  /** The last item with a tag decides, wherever it stands. */
  lemma {:induction false} LookupLast(items: seq<Item>, i: nat, before: Option<seq<byte>>)
    requires i < |items| && forall j | i < j < |items| :: items[j].tag != items[i].tag
    ensures Lookup(items, items[i].tag, before) == Some(items[i].value)
  {
    if i > 0 {
      LookupLast(items[1..], i - 1, if items[0].tag == items[i].tag then Some(items[0].value) else before);
    } else {
      LookupAbsent(items[1..], items[0].tag, Some(items[0].value));
    }
  }

  lemma {:induction false} LookupAbsent(items: seq<Item>, tag: byte, before: Option<seq<byte>>)
    requires forall j | 0 <= j < |items| :: items[j].tag != tag
    ensures Lookup(items, tag, before) == before
  {
    if items != [] {
      LookupAbsent(items[1..], tag, before);
    }
  }

  /** The parser object: for each tag the value found last. */
  class Parser {
    const val: array<Option<seq<byte>>>
    var useLargeTags: bool

    constructor ()
      ensures fresh(val) && val.Length == 256 && !useLargeTags && forall t | 0 <= t < 256 :: val[t] == None
    {
      val := new Option<seq<byte>>[256](_ => None);
      useLargeTags := false;
    }

    /** `ct_tlv_parse` */
    method Parse(bp: CtBuf) returns (rc: int)
      requires bp.Valid() && val.Length == 256
      modifies this, val, bp
      ensures bp.Valid() && bp.base == old(bp.base)
      ensures var (ok, items) := ParseAll(old(bp.View()).contents);
        && rc == (if ok then 0 else -1) && (ok ==> bp.View().contents == [])
        && (forall t: byte :: val[t] == Lookup(items, t, old(val[t])))
        && (ok ==> useLargeTags == (old(useLargeTags) || MeetsLarge(old(bp.View()).contents)))
    {
      hide ParseOne;
      ghost var all := bp.View().contents;
      ghost var start := val[..];
      while true
        invariant bp.Valid() && bp.base == old(bp.base)
        invariant ParseAll(bp.View().contents).0 == ParseAll(all).0
        invariant (useLargeTags || MeetsLarge(bp.View().contents)) == (old(useLargeTags) || MeetsLarge(all))
        invariant forall t: byte ::
          Lookup(ParseAll(all).1, t, start[t]) == Lookup(ParseAll(bp.View().contents).1, t, val[t])
        decreases |bp.View().contents|
      {
        var avail := bp.Avail();
        if avail == 0 {
          return 0;
        }
        ghost var s := bp.View().contents;
        var p := ParseOne(bp.base[bp.head..bp.tail]);
        if p.Malformed? {
          return -1;
        }
        if p.large {
          useLargeTags := true;
        }
        ghost var tail := ParseAll(s[p.size..]).1;
        assert ([p.item] + tail)[1..] == tail;
        val[p.item.tag] := Some(p.item.value);
        var got, bytes := bp.GetBytes(p.size);
      }
    }
  }

  // ---- integers ----

  /** The bytes `ct_tlv_put_int` writes: big-endian, as few as possible, at least one. */
  function IntBytes(value: nat): (b: seq<byte>)
    ensures b != []
  {
    if value < 256 then [value] else IntBytes(value / 256) + [value % 256]
  }

  /** What `ct_tlv_get_int` makes of a value: 32 bits, the oldest shifted out. */
  function IntOf(b: seq<byte>): (v: nat)
    ensures v < 0x1_0000_0000
  {
    if b == [] then 0
    else
      var low: int := b[|b| - 1];
      (IntOf(b[..|b| - 1]) * 256 + low) % 0x1_0000_0000
  }

  /** The bytes of an integer: the fewest that hold it, the highest first. */
  lemma IntLayout(v: nat)
    requires v < 0x1_0000_0000
    ensures IntBytes(v) ==
      if v < 256 then [v]
      else if v < 65536 then [v / 256, v % 256]
      else if v < 16777216 then [v / 65536, v / 256 % 256, v % 256]
      else [v / 16777216, v / 65536 % 256, v / 256 % 256, v % 256]
  {
    if v >= 256 {
      var w := v / 256;
      assert IntBytes(v) == IntBytes(w) + [v % 256];
      if w >= 256 {
        var x := w / 256;
        assert IntBytes(w) == IntBytes(x) + [w % 256];
        assert x >= 256 ==> IntBytes(x) == [x / 256, x % 256];
        assert w / 256 == v / 65536 && x / 256 == v / 16777216;
      }
    }
  }

  /** The number the bytes spell, the first counting most. */
  function Spelled(b: seq<byte>): nat {
    if b == [] then 0 else Power256(|b| - 1) * b[0] + Spelled(b[1..])
  }

  function Power256(n: nat): nat {
    if n == 0 then 1 else 256 * Power256(n - 1)
  }

  lemma {:induction false} SpelledLast(b: seq<byte>)
    requires b != []
    ensures Spelled(b) == 256 * Spelled(b[..|b| - 1]) + b[|b| - 1]
    decreases |b|
  {
    if |b| > 1 {
      var front := b[..|b| - 1];
      SpelledLast(b[1..]);
      assert b[1..][..|b| - 2] == front[1..];
      assert Power256(|b| - 1) == 256 * Power256(|b| - 2);
    } else {
      assert b[..0] == [] && b[1..] == [] && Power256(0) == 1;
    }
  }

  /** What is read is the number spelled, as far as 32 bits hold it. */
  lemma {:induction false} IntReading(b: seq<byte>)
    ensures IntOf(b) == Spelled(b) % 0x1_0000_0000
    decreases |b|
  {
    hide Spelled, Power256;
    if b != [] {
      var front := b[..|b| - 1];
      IntReading(front);
      SpelledLast(b);
      LowBits(Spelled(front), b[|b| - 1]);
    } else {
      SpelledNothing();
    }
  }

  lemma SpelledNothing()
    ensures Spelled([]) == 0
  {
  }

  lemma LowBits(x: nat, d: byte)
    ensures (x % 0x1_0000_0000 * 256 + d) % 0x1_0000_0000 == (256 * x + d) % 0x1_0000_0000
  {
    var q := x / 0x1_0000_0000;
    assert 256 * x + d == 0x1_0000_0000 * (256 * q) + (x % 0x1_0000_0000 * 256 + d);
  }

  /** Getting an integer inverts putting it, for every value of 32 bits. */
  lemma {:induction false} IntRoundTrip(value: nat)
    requires value < 0x1_0000_0000
    ensures IntOf(IntBytes(value)) == value
  {
    if value >= 256 {
      IntRoundTrip(value / 256);
      var b := IntBytes(value);
      assert b[..|b| - 1] == IntBytes(value / 256);
    } else {
      assert [value][..0] == [];
    }
  }

  /** `ct_tlv_get_int` */
  method GetInt(val: Option<seq<byte>>) returns (found: bool, value: nat)
    ensures found <==> val.Some?
    ensures value == if val.Some? then IntOf(val.value) else 0
  {
    value := 0;
    if val == None {
      return false, 0;
    }
    var p := val.value;
    var i := 0;
    while i < |p|
      invariant 0 <= i <= |p| && value == IntOf(p[..i])
    {
      assert p[..i + 1][..i] == p[..i];
      value := (value * 256 + p[i]) % 0x1_0000_0000;
      i := i + 1;
    }
    assert p[..|p|] == p;
    found := true;
  }

  // ---- building ----

  function Shift(k: nat): nat {
    if k == 0 then 1 else if k == 1 then 0x100 else if k == 2 then 0x1_0000 else 0x100_0000
  }

  lemma EmptyItem(large: bool, tag: byte)
    ensures Encode(large, Item(tag, [])) == if large then [WithLargeBit(tag)] + [0] + [0] else [tag] + [0]
  {
  }

  class Builder {
    var error: int
    const useLargeTags: bool
    const buf: CtBuf
    var len: nat
    /** Where the length field of the open item is in the buffer's memory; none is -1. */
    var lenp: int

    /** `ct_tlv_builder_init` */
    constructor (buf: CtBuf, large: bool)
      ensures this.buf == buf && useLargeTags == large && error == 0 && lenp == -1
    {
      this.buf, useLargeTags := buf, large;
      error, len, lenp := 0, 0, -1;
    }

    ghost predicate Valid()
      reads this, buf
    {
      buf.Valid() && buf.head == 0 && error <= 0
    }

    /** An item is being built: its header is in the buffer after `before`, followed by its bytes so far. */
    ghost predicate Open(before: seq<byte>, item: Item)
      reads this, buf, buf.base
    {
      && Valid() && error == 0 && len == |item.value| <= MaxLength(useLargeTags)
      && lenp == |before| + 1
      && buf.View().contents == before + Encode(useLargeTags, item)
    }

    ghost function Contents(): seq<byte>
      reads this, buf, buf.base
      requires Valid()
    {
      buf.View().contents
    }

    /** `ct_buf_put` with the head at 0: the bytes go where the tail is, or nothing changes. */
    method Append(data: seq<byte>) returns (ok: bool)
      requires Valid()
      modifies buf, buf.base
      ensures Valid() && buf.base == old(buf.base)
      ensures ok <==> |old(Contents())| + |data| <= buf.base.Length
      ensures Contents() == old(Contents()) + (if ok then data else []) && buf.tail == |Contents()|
    {
      hide Put;
      PutLaw(buf.View(), data);
      var rc := buf.PutBytes(data);
      ok := rc >= 0;
    }

    /** `ct_tlv_put_tag` */
    method PutTag(tag: byte)
      requires Valid()
      modifies this, buf, buf.base
      ensures Valid() && buf.base == old(buf.base)
      ensures old(error) < 0 ==> error == old(error) && Contents() == old(Contents())
      ensures old(error) == 0 ==>
        if |old(Contents())| + HeaderSize(useLargeTags) <= buf.base.Length
        then Open(old(Contents()), Item(tag, [])) else error == -1
    {
      hide Encode, Header;
      ghost var before := Contents();
      if error < 0 {
        return;
      }
      var ok := Append([if useLargeTags then WithLargeBit(tag) else tag]);
      if !ok {
        error := -1;
        return;
      }
      len := 0;
      lenp := buf.tail;
      ok := Append([0]);
      if ok && useLargeTags {
        ok := Append([0]);
      }
      if !ok {
        error := -1;
        return;
      }
      EmptyItem(useLargeTags, tag);
      assert Contents() == before + Encode(useLargeTags, Item(tag, []));
    }

    /** Writes the length so far into the open item's length field. */
    method PatchLength(ghost before: seq<byte>, ghost item: Item, ghost data: seq<byte>)
      requires Valid() && lenp == |before| + 1 && len == |item.value + data| && error == 0
      requires Contents() == before + Header(useLargeTags, item.tag, |item.value|) + item.value + data
      modifies buf.base
      ensures Valid()
      ensures Contents() == before + Encode(useLargeTags, Item(item.tag, item.value + data))
    {
      ghost var h := HeaderSize(useLargeTags);
      if useLargeTags {
        buf.base[lenp] := len / 256 % 256;
        buf.base[lenp + 1] := len % 256;
      } else {
        buf.base[lenp] := len % 256;
      }
    }

    /** `ct_tlv_add_bytes`. `before` and `item` name what is being built, for the contract only. */
    method AddBytes(data: seq<byte>, ghost before: seq<byte>, ghost item: Item)
      requires Valid() && (error == 0 && lenp >= 0 ==> Open(before, item))
      modifies this, buf, buf.base
      ensures Valid() && buf.base == old(buf.base)
      ensures old(error) < 0 ==> error == old(error) && Contents() == old(Contents())
      ensures old(error) == 0 && old(lenp) < 0 ==> error == -1 && Contents() == old(Contents())
      ensures old(error) == 0 && old(lenp) >= 0 ==>
        if |old(Contents())| + |data| <= buf.base.Length && |item.value| + |data| <= MaxLength(useLargeTags)
        then Open(before, Item(item.tag, item.value + data)) else error == -1
    {
      hide Encode;
      if error < 0 {
        return;
      }
      if lenp < 0 {
        error := -1;
        return;
      }
      len := len + |data|;
      var ok := Append(data);
      if !ok {
        error := -1;
        return;
      }
      OpenLonger(useLargeTags, before, item, data);
      PatchLength(before, item, data);
      if len > MaxLength(useLargeTags) {
        error := -1;
      }
    }

    /** `ct_tlv_put_opaque` and `ct_tlv_put_string`: a whole item, or an error. */
    method PutOpaque(tag: byte, data: seq<byte>)
      requires Valid()
      modifies this, buf, buf.base
      ensures Valid() && buf.base == old(buf.base)
      ensures old(error) != 0 ==> error == old(error) && Contents() == old(Contents())
      ensures old(error) == 0 ==>
        var now := PutItem(old(Contents()), buf.base.Length, useLargeTags, Item(tag, data));
        if now.Some? then error == 0 && Contents() == now.value && lenp == -1 else error == -1
    {
      hide Encode, Header;
      if error != 0 {
        return;
      }
      ghost var before := Contents();
      PutTag(tag);
      EncodeSize(useLargeTags, Item(tag, []));
      AddBytes(data, before, Item(tag, []));
      assert [] + data == data;
      lenp := -1;
    }

    /** `ct_tlv_put_int`: shifts by 32 bits from 2^24 up, so smaller values only. */
    method PutInt(tag: byte, value: nat)
      requires Valid() && value < 0x100_0000
      modifies this, buf, buf.base
      ensures Valid() && buf.base == old(buf.base)
      ensures old(error) != 0 ==> error == old(error) && Contents() == old(Contents())
      ensures old(error) == 0 ==>
        (error == 0 <==> |old(Contents())| + HeaderSize(useLargeTags) + |IntBytes(value)| <= buf.base.Length)
      ensures error == 0 ==>
        Contents() == old(Contents()) + Encode(useLargeTags, Item(tag, IntBytes(value))) && lenp == -1
    {
      hide Encode, Header, IntBytes;
      if error != 0 {
        return;
      }
      ghost var before := Contents();
      PutTag(tag);
      EncodeSize(useLargeTags, Item(tag, []));
      var n: int := 0;
      while value / Shift(n + 1) != 0
        invariant 0 <= n <= 2 && (n > 0 ==> value / Shift(n) != 0)
        decreases 2 - n
      {
        n := n + 1;
      }
      IntBytesAt(value, n);
      ghost var all := IntBytes(value);
      ghost var done := [];
      while n >= 0
        invariant -1 <= n <= 2 && |done| + n + 1 == |all| && done == all[..|done|] && Valid()
          && buf.base == old(buf.base)
        invariant error == 0 ==> Open(before, Item(tag, done))
        invariant error == 0 <==> |before| + HeaderSize(useLargeTags) + |done| <= buf.base.Length
        decreases n + 1
      {
        EncodeSize(useLargeTags, Item(tag, done));
        AddBytes([value / Shift(n) % 256], before, Item(tag, done));
        done := done + [value / Shift(n) % 256];
        n := n - 1;
      }
      assert all[..|all|] == all;
      lenp := -1;
    }
  }

  lemma EncodeSize(large: bool, item: Item)
    ensures |Encode(large, item)| == HeaderSize(large) + |item.value|
  {
  }

  lemma OpenLonger(large: bool, before: seq<byte>, item: Item, data: seq<byte>)
    ensures before + Encode(large, item) + data == before + Header(large, item.tag, |item.value|) + item.value + data
  {
  }

  /** The bytes of an integer, taken from its highest non-zero byte `n` down. */
  lemma IntBytesAt(value: nat, n: nat)
    requires n <= 2 && value < Shift(n + 1) && (n > 0 ==> value >= Shift(n))
    ensures |IntBytes(value)| == n + 1
    ensures forall k | 0 <= k <= n :: IntBytes(value)[n - k] == value / Shift(k) % 256
  {
    if n == 0 {
    } else if n == 1 {
      assert IntBytes(value) == [value / 256] + [value % 256];
    } else {
      assert IntBytes(value / 256) == [value / 256 / 256] + [value / 256 % 256];
      assert value / 256 / 256 == value / 0x1_0000;
    }
  }

  // ---- builder and parser together ----

  /** What a list of items takes up. */
  function TotalSize(large: bool, items: seq<Item>): nat {
    if items == [] then 0 else HeaderSize(large) + |items[0].value| + TotalSize(large, items[1..])
  }

  /** What putting a whole item makes of the contents of a buffer of `size` bytes, if it succeeds. */
  function PutItem(contents: seq<byte>, size: nat, large: bool, item: Item): Option<seq<byte>> {
    if |contents| + HeaderSize(large) + |item.value| <= size && |item.value| <= MaxLength(large)
    then Some(contents + Encode(large, item)) else None
  }

  /** The same for a row of items; the error of one that fails stays. */
  function PutItems(contents: seq<byte>, size: nat, large: bool, items: seq<Item>): Option<seq<byte>>
    decreases |items|
  {
    if items == [] then Some(contents)
    else
      var one := PutItem(contents, size, large, items[0]);
      if one.None? then None else PutItems(one.value, size, large, items[1..])
  }

  lemma {:induction false} TotalIsLength(large: bool, items: seq<Item>)
    ensures |EncodeAll(large, items)| == TotalSize(large, items)
  {
    hide Encode;
    if items != [] {
      EncodeSize(large, items[0]);
      TotalIsLength(large, items[1..]);
    }
  }

  lemma {:induction false} PutsEncode(contents: seq<byte>, size: nat, large: bool, items: seq<Item>)
    requires |contents| <= size && forall i | 0 <= i < |items| :: Sendable(large, items[i])
    ensures PutItems(contents, size, large, items) ==
      if |contents| + TotalSize(large, items) <= size then Some(contents + EncodeAll(large, items)) else None
    decreases |items|
  {
    hide Encode;
    if items == [] {
      assert contents + [] == contents;
    } else {
      EncodeSize(large, items[0]);
      var now := contents + Encode(large, items[0]);
      assert Sendable(large, items[0])
        && TotalSize(large, items) == |Encode(large, items[0])| + TotalSize(large, items[1..]);
      if |now| <= size {
        PutsEncode(now, size, large, items[1..]);
        assert PutItem(contents, size, large, items[0]) == Some(now);
        assert PutItems(contents, size, large, items) == PutItems(now, size, large, items[1..]);
        assert contents + (Encode(large, items[0]) + EncodeAll(large, items[1..])) ==
          now + EncodeAll(large, items[1..]);
      }
    }
  }

  /** Any list of sendable items goes into an empty buffer without error exactly if there is room,
      and what it then holds is parsed back to a map where each tag has its last value. */
  lemma BuildsAndParses(size: nat, large: bool, items: seq<Item>)
    requires forall i | 0 <= i < |items| :: Sendable(large, items[i])
    ensures var built := PutItems([], size, large, items);
      && (built.Some? <==> TotalSize(large, items) <= size)
      && (built.Some? ==> ParseAll(built.value) == (true, items))
      && forall i | 0 <= i < |items| && (forall j | i < j < |items| :: items[j].tag != items[i].tag) ::
           built.Some? ==> Lookup(ParseAll(built.value).1, items[i].tag, None) == Some(items[i].value)
  {
    hide ParseAll, EncodeAll, PutItems, TotalSize, Lookup;
    PutsEncode([], size, large, items);
    assert [] + EncodeAll(large, items) == EncodeAll(large, items);
    ItemsRoundTrip(large, items);
    forall i | 0 <= i < |items| && forall j | i < j < |items| :: items[j].tag != items[i].tag
      ensures Lookup(items, items[i].tag, None) == Some(items[i].value)
    {
      LookupLast(items, i, None);
    }
  }

  /** A row of items is put, one after the other. */
  method PutRow(builder: Builder, items: seq<Item>)
    requires builder.Valid() && builder.error == 0
    modifies builder, builder.buf, builder.buf.base
    ensures builder.Valid() && builder.buf.base == old(builder.buf.base)
    ensures var built := PutItems(old(builder.Contents()), builder.buf.base.Length, builder.useLargeTags, items);
      if built.Some? then builder.error == 0 && builder.Contents() == built.value else builder.error == -1
  {
    hide Encode, PutItem, PutItems;
    ghost var size, large := builder.buf.base.Length, builder.useLargeTags;
    ghost var all := PutItems(builder.Contents(), size, large, items);
    var i := 0;
    assert items[0..] == items;
    while i < |items|
      invariant 0 <= i <= |items|
      invariant builder.Valid() && builder.buf.base == old(builder.buf.base)
      invariant if builder.error == 0 then PutItems(builder.Contents(), size, large, items[i..]) == all
        else builder.error == -1 && all == None
    {
      if builder.error == 0 {
        PutItemsUnfolds(builder.Contents(), size, large, items[i..]);
      }
      assert items[i..][1..] == items[i + 1..];
      builder.PutOpaque(items[i].tag, items[i].value);
      i := i + 1;
    }
    assert items[i..] == [];
    if builder.error == 0 {
      PutItemsUnfolds(builder.Contents(), size, large, []);
    }
  }

  /** A list of items is built into an empty buffer with enough room, and parsed again: no error,
      and each tag holds the value of the last item with it. */
  method BuildAndParse(mem: array<byte>, large: bool, items: seq<Item>, parser: Parser) returns (error: int, rc: int)
    requires forall i | 0 <= i < |items| :: Sendable(large, items[i])
    requires TotalSize(large, items) <= mem.Length
    requires parser.val.Length == 256 && forall t | 0 <= t < 256 :: parser.val[t] == None
    modifies mem, parser, parser.val
    ensures error == 0 && rc == 0
    ensures PutItems([], mem.Length, large, items) == Some(mem[..TotalSize(large, items)])
    ensures forall t: byte :: parser.val[t] == Lookup(items, t, None)
  {
    hide Encode, ParseAll, PutItem, PutItems, Lookup, EncodeAll, TotalSize;
    var buf := new CtBuf.Init(mem);
    var builder := new Builder(buf, large);
    BuildsAndParses(mem.Length, large, items);
    PutRow(builder, items);
    error := builder.error;
    assert mem[..buf.tail] == buf.View().contents;
    BuiltSize(mem.Length, large, items);
    rc := parser.Parse(buf);
  }

  lemma PutItemsUnfolds(contents: seq<byte>, size: nat, large: bool, items: seq<Item>)
    ensures items == [] ==> PutItems(contents, size, large, items) == Some(contents)
    ensures items != [] ==>
      var one := PutItem(contents, size, large, items[0]);
      PutItems(contents, size, large, items) == if one.None? then None else PutItems(one.value, size, large, items[1..])
  {
    hide PutItem;
  }

  lemma BuiltSize(size: nat, large: bool, items: seq<Item>)
    requires forall i | 0 <= i < |items| :: Sendable(large, items[i])
    ensures var built := PutItems([], size, large, items);
      built.Some? ==> |built.value| == TotalSize(large, items)
  {
    hide PutItems, TotalSize, EncodeAll;
    PutsEncode([], size, large, items);
    TotalIsLength(large, items);
  }
}
