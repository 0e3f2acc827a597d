// stb_compress as written: an output cursor into the caller's buffer, a hash
// table overwritten in place, pending literals, a running checksum.
module LzCompressor {
  import opened Bytes
  import opened LzFormat
  import opened Adler32
  import opened LzScan

  // stb_matchlen
  method StbMatchlen(text: seq<byte>, m1: nat, m2: nat, maxlen: nat) returns (i: nat)
    requires m1 <= m2 && m2 + maxlen <= |text|
    ensures i == MatchLen(text, m1, m2, maxlen)
  {
    i := 0;
    while i < maxlen
      invariant i <= maxlen
      invariant MatchLen(text, m1, m2, maxlen) == i + MatchLen(text, m1 + i, m2 + i, maxlen - i)
    {
      if text[m1 + i] != text[m2 + i] {
        return;
      }
      i := i + 1;
    }
  }

  // STB__TRY
  method TryMatch(text: seq<byte>, t: int, q: nat, matchMax: nat, b: Best, skipSame: bool) returns (r: Best)
    requires q + matchMax <= |text| && -1 <= t < q
    ensures r == Try(text, t, q, matchMax, b, skipSame)
  {
    r := b;
    if t >= 0 && !(skipSame && b.dist == q - t) {
      var m := StbMatchlen(text, t, q, matchMax);
      if m > b.len && Acceptable(m, q - t) {
        r := Best(m, q - t);
      }
    }
  }

  // The four probes at q, then the update of the shared table.
  method ProbeTable(text: seq<byte>, q: nat, end: nat, chash: array<int>, hash: seq<byte> -> nat) returns (b: Best)
    requires TableBefore(chash[..], q) && q + 12 < end <= |text|
    modifies chash
    ensures b == Probe(text, hash, old(chash[..]), q, end)
    ensures chash[..] == Record(text, hash, old(chash[..]), q)
  {
    hide Try;
    ghost var table := chash[..];
    var matchMax := MatchMax(q, end);
    var h1 := Slot(text, hash, chash.Length, q, 3);
    var h2 := Slot(text, hash, chash.Length, q, 5);
    var h3 := Slot(text, hash, chash.Length, q, 9);
    var h4 := Slot(text, hash, chash.Length, q, 13);
    b := TryMatch(text, chash[h1], q, matchMax, Best(2, 0), false);
    b := TryMatch(text, chash[h2], q, matchMax, b, true);
    b := TryMatch(text, chash[h3], q, matchMax, b, true);
    b := TryMatch(text, chash[h4], q, matchMax, b, true);
    // the table is shared, so it is updated after all probes
    chash[h4] := q;
    chash[h3] := q;
    chash[h2] := q;
    chash[h1] := q;
    assert chash[..] == Record(text, hash, table, q);
  }

  lemma Joined(a: seq<byte>, b: seq<byte>, c: seq<byte>)
    ensures a + b + c == a + (b + c)
  {
  }

  class Compressor {
    const buf: array<byte>  // the caller's buffer
    var pos: nat            // stb__out - buf
    var adler: u32          // stb__running_adler

    constructor (buffer: array<byte>)
      ensures buf == buffer && pos == 0 && adler == 1
    {
      buf, pos, adler := buffer, 0, 1;
    }

    // The bytes written so far.
    ghost function Written(): (w: seq<byte>)
      requires pos <= buf.Length
      reads `pos, buf
      ensures |w| == pos
    {
      buf[..pos]
    }

    predicate Room(n: nat)
      reads this
    {
      pos + n <= buf.Length
    }

    method StbOut(v: nat)
      requires Room(1)
      modifies `pos, buf
      ensures Room(0) && Written() == old(Written()) + [Low(v)]
    {
      buf[pos] := Low(v);
      pos := pos + 1;
    }

    method StbOut2(v: nat)
      requires Room(2)
      modifies `pos, buf
      ensures Room(0) && Written() == old(Written()) + Out2(v)
    {
      StbOut(v / 0x100);
      StbOut(v);
    }

    method StbOut3(v: nat)
      requires Room(3)
      modifies `pos, buf
      ensures Room(0) && Written() == old(Written()) + Out3(v)
    {
      StbOut(v / 0x1_0000);
      StbOut(v / 0x100);
      StbOut(v);
    }

    method StbOut4(v: nat)
      requires Room(4)
      modifies `pos, buf
      ensures Room(0) && Written() == old(Written()) + Out4(v)
    {
      StbOut(v / 0x100_0000);
      StbOut(v / 0x1_0000);
      StbOut(v / 0x100);
      StbOut(v);
    }

    // The memcpy at the end of outliterals.
    method CopyIn(d: seq<byte>)
      requires Room(|d|)
      modifies `pos, buf
      ensures Room(0) && Written() == old(Written()) + d
    {
      var i := 0;
      while i < |d|
        invariant i <= |d| && pos == old(pos)
        invariant buf[..pos] == old(buf[..pos]) && buf[pos..pos + i] == d[..i]
      {
        buf[pos + i] := d[i];
        i := i + 1;
      }
      pos := pos + |d|;
      assert buf[..pos] == buf[..old(pos)] + buf[old(pos)..pos];
    }

    // outliterals: whole blocks of 65536 by recursion, then the remainder.
    method OutLiterals(d: seq<byte>)
      requires Room(|LiteralBytes(d)|)
      modifies `pos, buf
      ensures Room(0) && Written() == old(Written()) + LiteralBytes(d)
      decreases |d|
    {
      var from := 0;
      hide LiteralBytes;
      assert d[0..] == d;
      while |d| - from > 0x1_0000
        invariant from <= |d| && pos <= buf.Length
        invariant Written() + LiteralBytes(d[from..]) == old(Written()) + LiteralBytes(d)
      {
        LiteralsSplit(d, from);
        OutLiterals(d[from..from + 0x1_0000]);
        from := from + 0x1_0000;
      }
      OutRun(d[from..]);
    }

    // The branches after its loop: one run behind the header for its length.
    method OutRun(d: seq<byte>)
      requires |d| <= 0x1_0000 && Room(|LiteralBytes(d)|)
      modifies `pos, buf
      ensures Room(0) && Written() == old(Written()) + LiteralBytes(d)
    {
      var n := |d|;
      if n == 0 {
      } else if n <= 32 {
        StbOut(0x20 + n - 1);
      } else if n <= 2048 {
        StbOut2(0x800 + n - 1);
      } else {
        StbOut3(0x7_0000 + n - 1);
      }
      CopyIn(d);
    }

    // The bytes of one match, branch by branch.
    method OutMatch(form: Form, dist: nat, len: nat)
      requires 0 < dist && 0 < len && Room(|MatchBytes(form, dist, len)|)
      modifies `pos, buf
      ensures Room(0) && Written() == old(Written()) + MatchBytes(form, dist, len)
    {
      hide Out2, Out3, Compressor.Written;
      ghost var w := Written();
      match form
      case Short =>
        StbOut(0x80 + len - 1); StbOut(dist - 1);
      case Mid =>
        StbOut2(0x4000 + dist - 1); StbOut(len - 1);
        Joined(w, Out2(0x4000 + dist - 1), [Low(len - 1)]);
      case Far3 =>
        StbOut3(0x18_0000 + dist - 1); StbOut(len - 1);
        Joined(w, Out3(0x18_0000 + dist - 1), [Low(len - 1)]);
      case Far3Long =>
        StbOut3(0x10_0000 + dist - 1); StbOut2(len - 1);
        Joined(w, Out3(0x10_0000 + dist - 1), Out2(len - 1));
      case Far6 =>
        StbOut(0x06); StbOut3(dist - 1); StbOut(len - 1);
        Joined(w, [Low(0x06)], Out3(dist - 1));
        Joined(w, [Low(0x06)] + Out3(dist - 1), [Low(len - 1)]);
      case Far4 =>
        StbOut(0x04); StbOut3(dist - 1); StbOut2(len - 1);
        Joined(w, [Low(0x04)], Out3(dist - 1));
        Joined(w, [Low(0x04)] + Out3(dist - 1), Out2(len - 1));
    }

    // stb_compress_chunk: the text from start, length bytes, may run on to end.
    method StbCompressChunk(text: seq<byte>, start: nat, end: nat, length: nat, pending: nat,
                            chash: array<int>, hash: seq<byte> -> nat)
      returns (consumed: nat, stillPending: nat)
      requires pending <= start && start + length <= end <= |text|
      requires TableBefore(chash[..], start) && chash as object != buf
      requires ValidStart(adler)
      requires Room(|Scan(text, hash, chash[..], start - pending, start, start + length, end).out|)
      modifies `pos, `adler, buf, chash
      ensures var r := Scan(text, hash, old(chash[..]), start - pending, start, start + length, end);
              var q := if r.q < start + length then start + length else r.q;
              && Room(0) && Written() == old(Written()) + r.out
              && chash[..] == r.table
              && consumed == q - start && stillPending == q - r.lit
              && adler == Adler(old(adler), text[start..q])
    {
      hide Scan, Adler32.Adler;
      var litStart: nat, q: nat := start - pending, start;
      ghost var all := Scan(text, hash, chash[..], litStart, q, start + length, end);
      while q < start + length && q + 12 < end
        invariant litStart <= q <= end && start <= q && pos <= buf.Length
        invariant TableBefore(chash[..], q) && adler == old(adler)
        invariant var r := Scan(text, hash, chash[..], litStart, q, start + length, end);
                  && r.(out := all.out) == all && Written() + r.out == old(Written()) + all.out
        decreases end - q
      {
        litStart, q := CompressAt(text, start + length, end, litStart, q, chash, hash);
      }
      ScanStops(text, hash, chash[..], litStart, q, start + length, end);
      if q - start < length {
        q := start + length;
      }
      stillPending := q - litStart;
      adler := StbAdler32(adler, text[start..q]);
      consumed := q - start;
    }

    // One iteration of its loop.
    method CompressAt(text: seq<byte>, ghost limit: nat, end: nat, litStart: nat, q: nat,
                      chash: array<int>, hash: seq<byte> -> nat)
      returns (newLit: nat, newQ: nat)
      requires litStart <= q < limit <= end && q + 12 < end <= |text|
      requires TableBefore(chash[..], q) && chash as object != buf
      requires Room(|Scan(text, hash, chash[..], litStart, q, limit, end).out|)
      modifies `pos, buf, chash
      ensures litStart <= newLit <= newQ <= end && q < newQ && Room(0)
      ensures TableBefore(chash[..], newQ)
      ensures var s := Scan(text, hash, old(chash[..]), litStart, q, limit, end);
              var r := Scan(text, hash, chash[..], newLit, newQ, limit, end);
              && r.(out := s.out) == s && Written() + r.out == old(Written()) + s.out
    {
      hide Probe, Record, LiteralBytes, MatchBytes, Fits, Acceptable, MatchLen;
      var b := ProbeTable(text, q, end, chash, hash);
      var c := Ladder(b.len, b.dist);
      newLit, newQ := litStart, q + 1;
      if c.Emit? {
        LadderTotal(b.len, b.dist);
        OutLiterals(text[litStart..q]);
        OutMatch(c.form, b.dist, c.len);
        newLit, newQ := q + c.len, q + c.len;
      }
    }

    // The stream signature, the 64-bit length and the window.
    method OutHeader(length: nat)
      requires Room(16)
      modifies `pos, buf
      ensures Room(0) && Written() == old(Written()) + Header(length)
    {
      hide Out2, Out4;
      ghost var w := Written();
      StbOut(0x57);
      StbOut(0xbc);
      assert Written() == w + [0x57, 0xbc];
      StbOut2(0);
      StbOut4(0);
      assert Written() == w + ([0x57, 0xbc] + Out2(0) + Out4(0));
      StbOut4(length);
      StbOut4(WINDOW);
    }

    // stb_compress_inner
    method StbCompressInner(text: seq<byte>, hash: seq<byte> -> nat)
      requires |text| < 0x8000_0000
      requires pos == 0 && buf.Length >= |text| + |text| / 4 + 512 + 4
      modifies this, buf
      ensures Room(0) && Written() == Stream(text, hash)
    {
      hide Scan, LiteralBytes, Header, Adler32.Adler, Out2, Out4, Compressor.Written;
      StreamCost(text, hash);
      var chash := new int[HASH_SIZE](_ => -1);
      assert chash[..] == EmptyTable();
      OutHeader(|text|);
      assert Written() == Header(|text|);
      adler := 1;
      var len, literals := StbCompressChunk(text, 0, |text|, |text|, 0, chash, hash);
      assert len == |text| && text[0..len] == text;
      ghost var r := Scan(text, hash, EmptyTable(), 0, 0, |text|, |text|);
      assert Written() == Header(|text|) + r.out && literals == |text| - r.lit;
      OutLiterals(text[|text| - literals..]);
      assert text[|text| - literals..] == text[r.lit..];
      StbOut2(0x05fa);
      StbOut4(adler);
    }
  }

  // stb_compress: with the buffer the caller allocates, no write is out of
  // bounds and the bytes written are the stream of the text.
  method StbCompress(out: array<byte>, input: seq<byte>, hash: seq<byte> -> nat) returns (n: nat)
    requires |input| < 0x8000_0000 && out.Length >= |input| + |input| / 4 + 512 + 4
    modifies out
    ensures n <= out.Length && out[..n] == Stream(input, hash)
  {
    var c := new Compressor(out);
    c.StbCompressInner(input, hash);
    n := c.pos;
  }
}
