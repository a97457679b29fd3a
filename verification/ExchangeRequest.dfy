/** ChainExchange requests: the builder of exchange_client.go and the hand-written
    parser of cbor_helpers.go that picks the options out of one. */
module ExchangeRequest {
  import opened Bytes
  import opened Cbor

  /** [Head []CID, Length uint64, Options uint64] */
  function Request(head: seq<bytes>, length: nat, options: nat): bytes
    requires CidLengths(head) && length < TWO_64 && options < TWO_64
  {
    ArrayOf([CidArray(head), Uint64(length), Uint64(options)])
  }

  /** As CBOR a request is the three-element array of its links and two numbers. */
  lemma RequestEncodes(head: seq<bytes>, length: nat, options: nat)
    requires CidLengths(head) && length < TWO_64 && options < TWO_64
    ensures Encodes(Request(head, length, options), Array([CidArrayItem(head), UInt(length), UInt(options)]))
  {
    CidArrayEncodes(head);
    UintEncodes(length);
    UintEncodes(options);
    ArrayEncodes([CidArray(head), Uint64(length), Uint64(options)],
                 [CidArrayItem(head), UInt(length), UInt(options)]);
  }

  /** The same bytes are never two different requests. */
  lemma RequestDetermines(head: seq<bytes>, length: nat, options: nat, head': seq<bytes>, length': nat, options': nat)
    requires CidLengths(head) && length < TWO_64 && options < TWO_64
    requires CidLengths(head') && length' < TWO_64 && options' < TWO_64
    ensures Request(head, length, options) == Request(head', length', options')
            <==> head == head' && length == length' && options == options'
  {
    if Request(head, length, options) == Request(head', length', options') {
      var v := Array([CidArrayItem(head), UInt(length), UInt(options)]);
      var w := Array([CidArrayItem(head'), UInt(length'), UInt(options')]);
      RequestEncodes(head, length, options);
      RequestEncodes(head', length', options');
      hide Encodes, CidArrayItem, Request, CidLengths;
      EncodesOne(Request(head, length, options), v, w);
      assert v.items[0] == w.items[0] && v.items[1] == w.items[1] && v.items[2] == w.items[2];
      LinksDetermine(head, head');
    }
  }

  lemma LinksDetermine(cids: seq<bytes>, cids': seq<bytes>)
    requires CidArrayItem(cids) == CidArrayItem(cids')
    ensures cids == cids'
  {
    var items, items' := CidArrayItem(cids).items, CidArrayItem(cids').items;
    assert |cids| == |items| == |items'| == |cids'|;
    forall i | 0 <= i < |cids| ensures cids[i] == cids'[i] {
      assert items[i].item.data == items'[i].item.data;
      assert cids[i] == ([0] + cids[i])[1..] && cids'[i] == ([0] + cids'[i])[1..];
    }
  }

  // ------------------------------------------------------ the reader's movement

  /** What a reader at position pos still has; nothing when it is past the end. */
  function Unread(data: bytes, pos: nat): bytes {
    if pos <= |data| then data[pos..] else []
  }

  /** The header at pos, if there is one. */
  function HeadAt(data: bytes, pos: nat, strict: bool): (r: Option<Head>)
    ensures r.Some? ==> r.value.value < TWO_64 && 1 <= r.value.size && pos + r.value.size <= |data|
  {
    ReadHeader(Unread(data, pos), strict)
  }

  /** Seeking n bytes ahead, as int64: a length from 2^63 on moves backwards, and
      a position that would be negative (also by overflow) is refused, which
      leaves the reader where it was. Moving past the end is allowed. */
  function SeekTo(pos: nat, n: nat): nat
    requires n < TWO_64
  {
    var target := pos + (if n < TWO_63 then n else n - TWO_64);
    if target < 0 || target >= TWO_63 then pos else target
  }

  /** The position after one list element. An element that is not a link counts
      as its header alone. */
  function SkipCid(data: bytes, pos: nat, strict: bool): Option<nat> {
    match HeadAt(data, pos, strict)
    case None => None
    case Some(Head(m, _, size)) =>
      if m != TAG then Some(pos + size)
      else
        match HeadAt(data, pos + size, strict)
        case None => None
        case Some(Head(m', len, size')) =>
          if m' != BYTE_STRING then None else Some(SeekTo(pos + size + size', len))
  }

  /** One element, case by case: a tag must be followed by a byte string, whose
      content is skipped too. */
  lemma SkipExactly(data: bytes, pos: nat, strict: bool)
    ensures match HeadAt(data, pos, strict)
            case None => SkipCid(data, pos, strict) == None
            case Some(h) =>
              if h.major != 6 then SkipCid(data, pos, strict) == Some(pos + h.size)
              else
                match HeadAt(data, pos + h.size, strict)
                case None => SkipCid(data, pos, strict) == None
                case Some(g) =>
                  var start := pos + h.size + g.size;
                  && (SkipCid(data, pos, strict).Some? <==> g.major == 2)
                  && (g.major == 2 && start + g.value < 0x8000_0000_0000_0000 ==>
                        SkipCid(data, pos, strict) == Some(start + g.value))
  {
    hide HeadAt;
  }

  function SkipCids(data: bytes, pos: nat, n: nat, strict: bool): Option<nat>
    decreases n
  {
    if n == 0 then Some(pos)
    else
      match SkipCid(data, pos, strict)
      case None => None
      case Some(next) => SkipCids(data, next, n - 1, strict)
  }

  /** The options of a request and the position just past them. */
  function Parse(data: bytes, strict: bool): Option<(nat, nat)> {
    if |data| < 2 then None
    else
      match HeadAt(data, 0, strict)
      case None => None
      case Some(Head(m0, _, size0)) =>
        if m0 != ARRAY then None
        else
          match HeadAt(data, size0, strict)
          case None => None
          case Some(Head(m1, n, size1)) =>
            if m1 != ARRAY then None
            else
              match SkipCids(data, size0 + size1, n, strict)
              case None => None
              case Some(pos) => ParseNumbers(data, pos, strict)
  }

  function ParseNumbers(data: bytes, pos: nat, strict: bool): Option<(nat, nat)> {
    match HeadAt(data, pos, strict)
    case None => None
    case Some(Head(m, _, size)) =>
      if m != UNSIGNED_INT then None
      else
        match HeadAt(data, pos + size, strict)
        case None => None
        case Some(Head(m', options, size')) =>
          if m' != UNSIGNED_INT then None else Some((options, pos + size + size'))
  }

  // ------------------------------------------------------------ the parser itself

  class Reader {
    const data: bytes
    const strict: bool
    var pos: nat

    constructor (data: bytes, strict: bool)
      ensures this.data == data && this.strict == strict && pos == 0
    {
      this.data, this.strict, this.pos := data, strict, 0;
    }

    method Header() returns (h: Option<Head>)
      modifies this
      ensures h == HeadAt(data, old(pos), strict)
      ensures h.Some? ==> pos == old(pos) + h.value.size
    {
      h := ReadHeader(Unread(data, pos), strict);
      if h.Some? {
        pos := pos + h.value.size;
      }
    }

    method Seek(n: nat)
      requires n < TWO_64
      modifies this
      ensures pos == SeekTo(old(pos), n)
      ensures n < 0x8000_0000_0000_0000 && old(pos) + n < 0x8000_0000_0000_0000 ==> pos == old(pos) + n
      ensures n < 0x8000_0000_0000_0000 <= old(pos) + n ==> pos == old(pos)
      ensures n >= 0x8000_0000_0000_0000 && old(pos) < 0x8000_0000_0000_0000 ==>
                var target := old(pos) + n - 0x1_0000_0000_0000_0000;
                pos == if target >= 0 then target else old(pos)
    {
      var offset := if n < TWO_63 then n else n - TWO_64;
      var target := pos + offset;
      if 0 <= target < TWO_63 {
        pos := target;
      }
    }
  }

  method ParseRequestOptions(data: bytes, strict: bool) returns (r: nat)
    ensures r == if Parse(data, strict).Some? then Parse(data, strict).value.0 else 0
  {
    hide HeadAt;
    if |data| < 2 {
      return 0;
    }
    var reader := new Reader(data, strict);
    var h := reader.Header();
    if h.None? || h.value.major != ARRAY {
      return 0;
    }
    h := reader.Header();
    if h.None? || h.value.major != ARRAY {
      return 0;
    }
    var n, i := h.value.value, 0;
    ghost var start := reader.pos;
    while i < n
      invariant i <= n
      invariant SkipCids(data, start, n, strict) == SkipCids(data, reader.pos, n - i, strict)
    {
      h := reader.Header();
      if h.None? {
        return 0;
      }
      if h.value.major == TAG {
        h := reader.Header();
        if h.None? || h.value.major != BYTE_STRING {
          return 0;
        }
        reader.Seek(h.value.value);
      }
      i := i + 1;
    }
    h := reader.Header();
    if h.None? || h.value.major != UNSIGNED_INT {
      return 0;
    }
    h := reader.Header();
    if h.None? || h.value.major != UNSIGNED_INT {
      return 0;
    }
    r := h.value.value;
  }

  // ----------------------------------------------------------------- round trip

  lemma HeadInside(data: bytes, before: bytes, m: nat, v: nat, after: bytes, strict: bool)
    requires m < 8 && v < TWO_64 && data == before + Header(m, v) + after
    ensures HeadAt(data, |before|, strict) == Some(Head(m, v, |Header(m, v)|))
  {
    assert data[|before|..] == Header(m, v) + after;
    HeaderRoundTrip(m, v, after, strict);
  }

  lemma SkipWrittenCid(data: bytes, before: bytes, cid: bytes, after: bytes, strict: bool)
    requires |cid| + 1 < TWO_63 && |data| < TWO_63 && data == before + Cid(cid) + after
    ensures SkipCid(data, |before|, strict) == Some(|before + Cid(cid)|)
  {
    hide HeadAt, Header;
    var tag, len, link := Header(TAG, CID_TAG), Header(BYTE_STRING, |cid| + 1), [0] + cid;
    assert Cid(cid) == tag + len + link;
    assert data == before + tag + (len + link + after);
    HeadInside(data, before, TAG, CID_TAG, len + link + after, strict);
    assert data == (before + tag) + len + (link + after);
    HeadInside(data, before + tag, BYTE_STRING, |cid| + 1, link + after, strict);
  }

  /** Skipping the links of a list ends just past their bytes. */
  lemma {:induction false} SkipWrittenCids(data: bytes, before: bytes, cids: seq<bytes>, after: bytes, strict: bool)
    requires CidLengths(cids) && |data| < TWO_63
    requires data == before + Concat(Cids(cids)) + after
    ensures SkipCids(data, |before|, |cids|, strict) == Some(|before| + |Concat(Cids(cids))|)
    decreases |cids|
  {
    hide SkipCid, Cid;
    if cids != [] {
      var first, others := cids[0], cids[1..];
      assert Cids(cids)[1..] == Cids(others);
      var tail := Concat(Cids(others));
      assert Concat(Cids(cids)) == Cid(first) + tail;
      assert data == before + Cid(first) + (tail + after);
      SkipWrittenCid(data, before, first, tail + after, strict);
      assert data == (before + Cid(first)) + tail + after;
      SkipWrittenCids(data, before + Cid(first), others, after, strict);
    }
  }

  /** The parser finds the options of every built request and stops exactly at
      its end. */
  lemma RequestRoundTrip(head: seq<bytes>, length: nat, options: nat, strict: bool)
    requires CidLengths(head) && length < TWO_64 && options < TWO_64
    requires |Request(head, length, options)| < TWO_63
    ensures Parse(Request(head, length, options), strict)
         == Some((options, |Request(head, length, options)|))
  {
    hide HeadAt, Header, SkipCids, Cids;
    var data := Request(head, length, options);
    var outer, inner := Header(ARRAY, 3), Header(ARRAY, |head|);
    var links, n, o := Concat(Cids(head)), Uint64(length), Uint64(options);
    ConcatDisplays(CidArray(head), n, o, [], []);
    assert data == [] + outer + (inner + links + n + o);
    HeadInside(data, [], ARRAY, 3, inner + links + n + o, strict);
    assert data == outer + inner + (links + n + o);
    HeadInside(data, outer, ARRAY, |head|, links + n + o, strict);
    assert data == (outer + inner) + links + (n + o);
    SkipWrittenCids(data, outer + inner, head, n + o, strict);
    var before := outer + inner + links;
    assert data == before + n + o && data == (before + n) + o + [];
    HeadInside(data, before, UNSIGNED_INT, length, o, strict);
    HeadInside(data, before + n, UNSIGNED_INT, options, [], strict);
  }

  // ------------------------------------------------------------------- prefixes

  lemma HeadOfPrefix(data: bytes, n: nat, pos: nat, strict: bool)
    requires n <= |data| && HeadAt(data[..n], pos, strict).Some?
    ensures HeadAt(data, pos, strict) == HeadAt(data[..n], pos, strict)
  {
    assert data[..n][pos..] == data[pos..][..n - pos];
    HeaderOfPrefix(data[pos..], n - pos, strict);
  }

  lemma SkipCidOfPrefix(data: bytes, n: nat, pos: nat, strict: bool)
    requires n <= |data| && SkipCid(data[..n], pos, strict).Some?
    ensures SkipCid(data, pos, strict) == SkipCid(data[..n], pos, strict)
  {
    hide HeadAt;
    HeadOfPrefix(data, n, pos, strict);
    var h := HeadAt(data, pos, strict).value;
    if h.major == TAG {
      HeadOfPrefix(data, n, pos + h.size, strict);
    }
  }

  lemma {:induction false} SkipOfPrefix(data: bytes, n: nat, pos: nat, k: nat, strict: bool)
    requires n <= |data| && SkipCids(data[..n], pos, k, strict).Some?
    ensures SkipCids(data, pos, k, strict) == SkipCids(data[..n], pos, k, strict)
    decreases k
  {
    hide SkipCid;
    if k > 0 {
      SkipCidOfPrefix(data, n, pos, strict);
      SkipOfPrefix(data, n, SkipCid(data, pos, strict).value, k - 1, strict);
    }
  }

  lemma NumbersOfPrefix(data: bytes, n: nat, pos: nat, strict: bool)
    requires n <= |data| && ParseNumbers(data[..n], pos, strict).Some?
    ensures ParseNumbers(data, pos, strict) == ParseNumbers(data[..n], pos, strict)
    ensures ParseNumbers(data, pos, strict).value.1 <= n
  {
    hide HeadAt;
    HeadOfPrefix(data, n, pos, strict);
    HeadOfPrefix(data, n, pos + HeadAt(data, pos, strict).value.size, strict);
  }

  /** A prefix on which the parser succeeds gives what the whole gives, and the
      parse ends inside the prefix, even though a seek may leave it. */
  lemma ParseOfPrefix(data: bytes, n: nat, strict: bool)
    requires n <= |data| && Parse(data[..n], strict).Some?
    ensures Parse(data, strict) == Parse(data[..n], strict)
    ensures Parse(data, strict).value.1 <= n
  {
    hide HeadAt, SkipCids, ParseNumbers;
    HeadOfPrefix(data, n, 0, strict);
    var size0 := HeadAt(data, 0, strict).value.size;
    HeadOfPrefix(data, n, size0, strict);
    var h := HeadAt(data, size0, strict).value;
    SkipOfPrefix(data, n, size0 + h.size, h.value, strict);
    var pos := SkipCids(data, size0 + h.size, h.value, strict).value;
    NumbersOfPrefix(data, n, pos, strict);
  }

  /** Cut anywhere, also inside a link, a request yields no options at all. */
  lemma CutRequestRejected(head: seq<bytes>, length: nat, options: nat, n: nat, strict: bool)
    requires CidLengths(head) && length < TWO_64 && options < TWO_64
    requires n < |Request(head, length, options)| < TWO_63
    ensures Parse(Request(head, length, options)[..n], strict) == None
  {
    var data := Request(head, length, options);
    if Parse(data[..n], strict).Some? {
      ParseOfPrefix(data, n, strict);
      RequestRoundTrip(head, length, options, strict);
      assert false;
    }
  }
}
