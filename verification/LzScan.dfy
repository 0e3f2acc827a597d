// What stb_compress emits, as a function of the text and of an arbitrary hash:
// the four probes, the branch ladder, the pending literals. Correctness of the
// stream comes from the match length alone.
module LzScan {
  import opened Bytes
  import opened Wrappers
  import opened LzFormat
  import opened Adler32

  const WINDOW: nat := 0x4_0000

  // ----- literals -----

  // outliterals: blocks of 65536, then the rest behind a header of 1 to 3 bytes.
  function LiteralBytes(d: seq<byte>): seq<byte>
    decreases |d|
  {
    if |d| > 0x1_0000 then LiteralBytes(d[..0x1_0000]) + LiteralBytes(d[0x1_0000..])
    else if d == [] then []
    else OpBytes(Literals(d))
  }

  lemma LiteralsSplit(d: seq<byte>, from: nat)
    requires from + 0x1_0000 < |d|
    ensures LiteralBytes(d[from..]) == LiteralBytes(d[from..from + 0x1_0000]) + LiteralBytes(d[from + 0x1_0000..])
  {
  }

  lemma {:induction false} LiteralsYield(d: seq<byte>, h: seq<byte>)
    ensures Yields(LiteralBytes(d), h, h + d)
    decreases |d|
  {
    hide Yields;
    if |d| > 0x1_0000 {
      var x, y := d[..0x1_0000], d[0x1_0000..];
      LiteralsYield(x, h);
      LiteralsYield(y, h + x);
      assert h + x + y == h + d;
      YieldsConcat(LiteralBytes(x), LiteralBytes(y), h, h + x, h + d);
    } else if d == [] {
      YieldsNothing(h);
      assert h + d == h;
    } else {
      YieldsLiterals(d, h);
    }
  }

  // Beyond its first byte, the header cost of a run is paid by a quarter of the run.
  lemma {:induction false} LiteralsCost(d: seq<byte>)
    ensures d != [] ==> 4 * |LiteralBytes(d)| <= 5 * |d| + 4
    ensures d == [] ==> LiteralBytes(d) == []
    decreases |d|
  {
    if |d| > 0x1_0000 {
      LiteralsCost(d[0x1_0000..]);
      assert d[..0x1_0000] != [] && |LiteralBytes(d[..0x1_0000])| == 0x1_0003;
    }
  }

  // ----- choosing a match -----

  // stb_matchlen: how far the texts from t and from q agree, up to max.
  function MatchLen(text: seq<byte>, t: nat, q: nat, max: nat): nat
    requires t <= q && q + max <= |text|
    decreases max
  {
    if max == 0 || text[t] != text[q] then 0 else 1 + MatchLen(text, t + 1, q + 1, max - 1)
  }

  // It is the longest agreement.
  lemma {:induction false} MatchLenIsLongest(text: seq<byte>, t: nat, q: nat, max: nat)
    requires t <= q && q + max <= |text|
    ensures var n := MatchLen(text, t, q, max);
            && n <= max
            && (forall i :: q <= i < q + n ==> text[i] == text[i - (q - t)])
            && (n < max ==> text[t + n] != text[q + n])
    decreases max
  {
    if max > 0 && text[t] == text[q] {
      MatchLenIsLongest(text, t + 1, q + 1, max - 1);
    }
  }

  predicate NotCrap(best: nat, dist: nat) {
    || (best > 2 && dist <= 0x100)
    || (best > 5 && dist <= 0x4000)
    || (best > 7 && dist <= 0x8_0000)
  }

  predicate Acceptable(best: nat, dist: nat) {
    dist <= WINDOW && (best > 9 || NotCrap(best, dist))
  }

  datatype Choice = Literal | Emit(form: Form, len: nat) | Fallback

  // The branch ladder of stb_compress_chunk.
  function Ladder(best: nat, dist: nat): Choice {
    if best < 3 then Literal
    else if best > 2 && best <= 0x80 && dist <= 0x100 then Emit(Short, best)
    else if best > 5 && best <= 0x100 && dist <= 0x4000 then Emit(Mid, best)
    else if best > 7 && best <= 0x100 && dist <= 0x8_0000 then Emit(Far3, best)
    else if best > 8 && best <= 0x1_0000 && dist <= 0x8_0000 then Emit(Far3Long, best)
    else if best > 9 && dist <= 0x100_0000 then
      var len := if best > 0x1_0000 then 0x1_0000 else best;
      Emit(if len <= 0x100 then Far6 else Far4, len)
    else Fallback
  }

  // Which matches are taken: inside the window, from 3, 6 or 8 bytes on by
  // distance.
  lemma AcceptedFrom(best: nat, dist: nat)
    ensures Acceptable(best, dist)
            <==> dist <= 0x4_0000 && best >= if dist <= 0x100 then 3 else if dist <= 0x4000 then 6 else 8
  {
  }

  // The ladder is total on acceptable matches: it emits the whole match, the
  // fields fit, the code is shorter than the match and no longer than that of
  // any other form that fits, and neither the fallback nor the far forms are
  // reached.
  lemma LadderTotal(best: nat, dist: nat)
    requires 2 < best <= 0x1_0000 && 0 < dist && Acceptable(best, dist)
    ensures var c := Ladder(best, dist);
            && c.Emit? && c.len == best
            && c.form in {Short, Mid, Far3, Far3Long}
            && Fits(Match(c.form, dist, best))
            && |MatchBytes(c.form, dist, best)| < best
            && forall f :: Fits(Match(f, dist, best)) ==>
                             |MatchBytes(c.form, dist, best)| <= |MatchBytes(f, dist, best)|
  {
  }

  datatype Best = Best(len: nat, dist: nat)

  // What a candidate carries: nothing yet, or an acceptable match at q.
  ghost predicate Good(text: seq<byte>, q: nat, max: nat, b: Best)
    requires q + max <= |text|
  {
    if b.len <= 2 then b == Best(2, 0)
    else
      && b.len <= max && 0 < b.dist <= q && Acceptable(b.len, b.dist)
      && b.len == MatchLen(text, q - b.dist, q, max)
  }

  // The match that the table entry t offers at q is no better than b.
  predicate Covers(text: seq<byte>, t: int, q: nat, max: nat, b: Best)
    requires q + max <= |text| && -1 <= t < q
  {
    t >= 0 ==> var m := MatchLen(text, t, q, max); Acceptable(m, q - t) ==> m <= b.len
  }

  // STB__TRY on the table entry t, -1 being the null pointer.
  function Try(text: seq<byte>, t: int, q: nat, max: nat, b: Best, skipSame: bool): (r: Best)
    requires q + max <= |text| && -1 <= t < q
    ensures Good(text, q, max, b) ==> Good(text, q, max, r) && Covers(text, t, q, max, r)
    ensures r == b || b.len < r.len
  {
    if t < 0 then b
    else if skipSame && b.dist == q - t then b
    else
      var m := MatchLen(text, t, q, max);
      MatchLenIsLongest(text, t, q, max);
      if m > b.len && Acceptable(m, q - t) then Best(m, q - t) else b
  }

  // The table holds null or positions before q.
  predicate TableBefore(table: seq<int>, q: nat) {
    table != [] && forall i :: 0 <= i < |table| ==> -1 <= table[i] < q
  }

  // The four slots of q; the hash reads at most 13 bytes from q.
  function Slot(text: seq<byte>, hash: seq<byte> -> nat, size: nat, q: nat, n: nat): (i: nat)
    requires size > 0 && q + n <= |text|
    ensures i < size
  {
    hash(text[q..q + n]) % size
  }

  function MatchMax(q: nat, end: nat): nat
    requires q <= end
  {
    if q + 0x1_0000 > end then end - q else 0x1_0000
  }

  function Probe(text: seq<byte>, hash: seq<byte> -> nat, table: seq<int>, q: nat, end: nat): (r: Best)
    requires TableBefore(table, q) && q + 12 < end <= |text|
    ensures Good(text, q, MatchMax(q, end), r)
  {
    var size, max := |table|, MatchMax(q, end);
    var b1 := Try(text, table[Slot(text, hash, size, q, 3)], q, max, Best(2, 0), false);
    var b2 := Try(text, table[Slot(text, hash, size, q, 5)], q, max, b1, true);
    var b3 := Try(text, table[Slot(text, hash, size, q, 9)], q, max, b2, true);
    Try(text, table[Slot(text, hash, size, q, 13)], q, max, b3, true)
  }

  // Not retrying a distance loses nothing: the choice is the best of all four
  // candidates.
  lemma ProbeIsBest(text: seq<byte>, hash: seq<byte> -> nat, table: seq<int>, q: nat, end: nat, n: nat)
    requires TableBefore(table, q) && q + 12 < end <= |text| && n in {3, 5, 9, 13}
    ensures Covers(text, table[Slot(text, hash, |table|, q, n)], q, MatchMax(q, end), Probe(text, hash, table, q, end))
  {
  }

  // Slot i belongs to q.
  predicate IsSlot(text: seq<byte>, hash: seq<byte> -> nat, size: nat, q: nat, i: nat)
    requires size > 0 && q + 13 <= |text|
  {
    exists n :: n in {3, 5, 9, 13} && i == Slot(text, hash, size, q, n)
  }

  function Record(text: seq<byte>, hash: seq<byte> -> nat, table: seq<int>, q: nat): (r: seq<int>)
    requires TableBefore(table, q) && q + 13 <= |text|
    ensures |r| == |table| && TableBefore(r, q + 1)
    ensures forall i :: 0 <= i < |r| ==> r[i] == if IsSlot(text, hash, |table|, q, i) then q else table[i]
  {
    var size := |table|;
    table[Slot(text, hash, size, q, 13) := q][Slot(text, hash, size, q, 9) := q]
         [Slot(text, hash, size, q, 5) := q][Slot(text, hash, size, q, 3) := q]
  }

  // ----- repeats are found -----

  lemma {:induction false} AgreementCounts(text: seq<byte>, t: nat, q: nat, max: nat, n: nat)
    requires t <= q && q + max <= |text| && n <= max
    requires text[t..t + n] == text[q..q + n]
    ensures MatchLen(text, t, q, max) >= n
    decreases max
  {
    if n > 0 {
      assert text[t..t + n][0] == text[q..q + n][0];
      assert text[t + 1..t + n] == text[t..t + n][1..] == text[q..q + n][1..] == text[q + 1..q + n];
      AgreementCounts(text, t + 1, q + 1, max - 1, n - 1);
    }
  }

  // A position is found through the slot that holds it, with the whole of an
  // agreement long enough to be taken.
  lemma EntryIsFound(text: seq<byte>, hash: seq<byte> -> nat, table: seq<int>, p: nat, q: nat, end: nat, k: nat, n: nat)
    requires TableBefore(table, q) && p < q && q - p <= 0x4_0000 && q + 12 < end <= |text| && k in {3, 5, 9, 13}
    requires table[Slot(text, hash, |table|, q, k)] == p
    requires 8 <= n <= MatchMax(q, end) && text[p..p + n] == text[q..q + n]
    ensures Probe(text, hash, table, q, end).len >= n
  {
    hide Probe, MatchLen;
    AgreementCounts(text, p, q, MatchMax(q, end), n);
    ProbeIsBest(text, hash, table, q, end, k);
  }

  // Thirteen bytes that were just recorded are found again, for every hash.
  lemma RepeatIsFound(text: seq<byte>, hash: seq<byte> -> nat, table: seq<int>, p: nat, q: nat, end: nat)
    requires TableBefore(table, p) && p < q && q - p <= 0x4_0000 && q + 12 < end <= |text|
    requires text[p..p + 13] == text[q..q + 13]
    ensures Probe(text, hash, Record(text, hash, table, p), q, end).len >= 13
  {
    hide Probe;
    var next := Record(text, hash, table, p);
    assert Slot(text, hash, |table|, p, 13) == Slot(text, hash, |table|, q, 13);
    assert IsSlot(text, hash, |table|, p, Slot(text, hash, |table|, p, 13));
    EntryIsFound(text, hash, next, p, q, end, 13, 13);
  }

  // ----- the scan -----

  datatype Scanned = Scanned(out: seq<byte>, lit: nat, q: nat, table: seq<int>)

  // The loop of stb_compress_chunk from q, with literals pending since lit.
  function Scan(text: seq<byte>, hash: seq<byte> -> nat, table: seq<int>,
                lit: nat, q: nat, limit: nat, end: nat): (r: Scanned)
    requires TableBefore(table, q) && lit <= q <= end <= |text| && limit <= end
    ensures lit <= r.lit <= r.q <= end && q <= r.q && TableBefore(r.table, r.q) && |r.table| == |table|
    decreases end - q
  {
    if !(q < limit && q + 12 < end) then Scanned([], lit, q, table)
    else
      var b := Probe(text, hash, table, q, end);
      var next := Record(text, hash, table, q);
      var c := Ladder(b.len, b.dist);
      if c.Emit? then
        LadderTotal(b.len, b.dist);
        var rest := Scan(text, hash, next, q + c.len, q + c.len, limit, end);
        rest.(out := LiteralBytes(text[lit..q]) + MatchBytes(c.form, b.dist, c.len) + rest.out)
      else
        Scan(text, hash, next, lit, q + 1, limit, end)
  }

  lemma ScanStops(text: seq<byte>, hash: seq<byte> -> nat, table: seq<int>, lit: nat, q: nat, limit: nat, end: nat)
    requires TableBefore(table, q) && lit <= q <= end <= |text| && limit <= end
    requires !(q < limit && q + 12 < end)
    ensures Scan(text, hash, table, lit, q, limit, end) == Scanned([], lit, q, table)
  {
  }

  // One turn of the loop that takes a match.
  lemma ScanEmits(text: seq<byte>, hash: seq<byte> -> nat, table: seq<int>, lit: nat, q: nat, limit: nat, end: nat)
    requires TableBefore(table, q) && lit <= q < limit <= end <= |text| && q + 12 < end
    requires var b := Probe(text, hash, table, q, end); Ladder(b.len, b.dist).Emit?
    ensures var b := Probe(text, hash, table, q, end);
            var c := Ladder(b.len, b.dist);
            && c.len == b.len > 2 && 0 < b.dist && q + c.len <= end
            && var rest := Scan(text, hash, Record(text, hash, table, q), q + c.len, q + c.len, limit, end);
               Scan(text, hash, table, lit, q, limit, end)
               == rest.(out := LiteralBytes(text[lit..q]) + MatchBytes(c.form, b.dist, c.len) + rest.out)
  {
    hide Probe, Record, Fits, Acceptable, MatchLen, MatchBytes, LiteralBytes;
    var b := Probe(text, hash, table, q, end);
    LadderTotal(b.len, b.dist);
  }

  // One turn that takes none.
  lemma ScanPasses(text: seq<byte>, hash: seq<byte> -> nat, table: seq<int>, lit: nat, q: nat, limit: nat, end: nat)
    requires TableBefore(table, q) && lit <= q < limit <= end <= |text| && q + 12 < end
    requires var b := Probe(text, hash, table, q, end); !Ladder(b.len, b.dist).Emit?
    ensures Scan(text, hash, table, lit, q, limit, end)
            == Scan(text, hash, Record(text, hash, table, q), lit, q + 1, limit, end)
  {
    hide Probe, Record;
  }

  // A chosen match, with the literals before it, expands to the text it covers.
  lemma MatchYields(text: seq<byte>, lit: nat, q: nat, end: nat, b: Best, form: Form)
    requires lit <= q <= end <= |text| && Good(text, q, MatchMax(q, end), b)
    requires b.len > 2 && Fits(Match(form, b.dist, b.len))
    ensures Yields(LiteralBytes(text[lit..q]) + MatchBytes(form, b.dist, b.len), text[..lit], text[..q + b.len])
  {
    hide Yields, MatchBytes, LiteralBytes;
    LiteralsYield(text[lit..q], text[..lit]);
    assert text[..lit] + text[lit..q] == text[..q];
    YieldsMatch(form, b.dist, b.len, text[..q]);
    MatchLenIsLongest(text, q - b.dist, q, MatchMax(q, end));
    CopyReproduces(text, q, b.dist, b.len);
    YieldsConcat(LiteralBytes(text[lit..q]), MatchBytes(form, b.dist, b.len),
                 text[..lit], text[..q], text[..q + b.len]);
  }

  // Whatever the hash, the scan's bytes expand to the text it passed over.
  lemma {:induction false} ScanYields(text: seq<byte>, hash: seq<byte> -> nat, table: seq<int>,
                                      lit: nat, q: nat, limit: nat, end: nat)
    requires TableBefore(table, q) && lit <= q <= end <= |text| && limit <= end
    ensures var r := Scan(text, hash, table, lit, q, limit, end);
            Yields(r.out, text[..lit], text[..r.lit])
    decreases end - q
  {
    hide Yields, MatchBytes, LiteralBytes, Probe, Record, Fits, Acceptable, MatchLen;
    if !(q < limit && q + 12 < end) {
      YieldsNothing(text[..lit]);
    } else {
      var b := Probe(text, hash, table, q, end);
      var next := Record(text, hash, table, q);
      var c := Ladder(b.len, b.dist);
      if c.Emit? {
        LadderTotal(b.len, b.dist);
        var rest := Scan(text, hash, next, q + c.len, q + c.len, limit, end);
        ScanYields(text, hash, next, q + c.len, q + c.len, limit, end);
        MatchYields(text, lit, q, end, b, c.form);
        YieldsConcat(LiteralBytes(text[lit..q]) + MatchBytes(c.form, b.dist, c.len), rest.out,
                     text[..lit], text[..q + c.len], text[..rest.lit]);
      } else {
        ScanYields(text, hash, next, lit, q + 1, limit, end);
      }
    }
  }

  // Every match pays for the literal header before it.
  lemma {:induction false} ScanCost(text: seq<byte>, hash: seq<byte> -> nat, table: seq<int>,
                                    lit: nat, q: nat, limit: nat, end: nat)
    requires TableBefore(table, q) && lit <= q <= end <= |text| && limit <= end
    ensures var r := Scan(text, hash, table, lit, q, limit, end);
            4 * |r.out| <= 5 * (r.lit - lit)
    decreases end - q
  {
    hide MatchBytes, LiteralBytes, Probe, Record, Fits, Acceptable, MatchLen;
    if q < limit && q + 12 < end {
      var b := Probe(text, hash, table, q, end);
      var next := Record(text, hash, table, q);
      var c := Ladder(b.len, b.dist);
      if c.Emit? {
        LadderTotal(b.len, b.dist);
        LiteralsCost(text[lit..q]);
        ScanCost(text, hash, next, q + c.len, q + c.len, limit, end);
      } else {
        ScanCost(text, hash, next, lit, q + 1, limit, end);
      }
    }
  }

  // ----- the stream -----

  const HASH_SIZE: nat := 32768

  function EmptyTable(): (t: seq<int>)
    ensures |t| == HASH_SIZE && TableBefore(t, 0)
  {
    seq(HASH_SIZE, _ => -1)
  }

  function Header(length: nat): seq<byte> {
    [0x57, 0xbc] + Out2(0) + Out4(0) + Out4(length) + Out4(WINDOW)
  }

  // Everything stb_compress_inner emits for the text.
  function Stream(text: seq<byte>, hash: seq<byte> -> nat): seq<byte> {
    var r := Scan(text, hash, EmptyTable(), 0, 0, |text|, |text|);
    Header(|text|) + r.out + LiteralBytes(text[r.lit..]) + Out2(0x05fa) + Out4(Adler(1, text))
  }

  lemma ReadOut4(v: nat, s: seq<byte>, i: nat)
    requires v < 0x1_0000_0000 && i + 4 <= |s| && s[i..i + 4] == Out4(v)
    ensures In4(s, i) == v
  {
    var w := s[i..i + 4];
    assert forall k :: 0 <= k < 4 ==> s[i + k] == w[k];
    assert At(s, i) == w[0] && At(s, i + 1) == w[1] && At(s, i + 2) == w[2] && At(s, i + 3) == w[3];
    assert v / 0x1_0000 == At(s, i) * 0x100 + At(s, i + 1);
    assert v % 0x1_0000 == At(s, i + 2) * 0x100 + At(s, i + 3);
  }

  // The body of the stream expands to exactly the text.
  lemma BodyYields(text: seq<byte>, hash: seq<byte> -> nat)
    ensures var r := Scan(text, hash, EmptyTable(), 0, 0, |text|, |text|);
            Yields(r.out + LiteralBytes(text[r.lit..]), [], text)
  {
    hide Yields, Scan, LiteralBytes;
    var r := Scan(text, hash, EmptyTable(), 0, 0, |text|, |text|);
    ScanYields(text, hash, EmptyTable(), 0, 0, |text|, |text|);
    LiteralsYield(text[r.lit..], text[..r.lit]);
    assert text[..0] == [] && text[..r.lit] + text[r.lit..] == text;
    YieldsConcat(r.out, LiteralBytes(text[r.lit..]), [], text[..r.lit], text);
  }

  lemma ExpandEnds(body: seq<byte>, text: seq<byte>, rest: seq<byte>)
    requires Yields(body, [], text)
    ensures Expand(body + Out2(0x05fa) + rest, []) == Some((text, rest))
  {
    hide ReadOp, CopyBack;
    var tail := Out2(0x05fa) + rest;
    assert body + Out2(0x05fa) + rest == body + tail;
    assert Expand(body + tail, []) == Expand(tail, text);
    assert tail[2..] == rest;
  }

  // For every text and every hash, decoding the stream gives the text back,
  // the header carries its length and the trailer its Adler-32.
  lemma RoundTrip(text: seq<byte>, hash: seq<byte> -> nat)
    requires |text| < 0x8000_0000
    ensures Decode(Stream(text, hash)) == Some(Decoded(text, |text|, 0x4_0000, Adler(1, text)))
  {
    hide Yields, Expand, Scan, LiteralBytes, Adler32.Adler, EmptyTable;
    var s := Stream(text, hash);
    var r := Scan(text, hash, EmptyTable(), 0, 0, |text|, |text|);
    var body := r.out + LiteralBytes(text[r.lit..]);
    BodyYields(text, hash);
    AdlerConcat(1, text, []);
    var trailer := Out4(Adler(1, text));
    ExpandEnds(body, text, trailer);
    assert s[16..] == body + Out2(0x05fa) + trailer;
    assert s[..8] == [0x57, 0xbc, 0, 0, 0, 0, 0, 0];
    assert s[8..12] == Out4(|text|) && s[12..16] == Out4(WINDOW);
    ReadOut4(|text|, s, 8);
    ReadOut4(WINDOW, s, 12);
    assert trailer[0..4] == trailer;
    ReadOut4(Adler(1, text), trailer, 0);
  }

  // ----- runs of one byte -----

  ghost predicate OneByte(text: seq<byte>) { forall i, j :: 0 <= i < j < |text| ==> text[i] == text[j] }

  lemma SameSlot(text: seq<byte>, hash: seq<byte> -> nat, size: nat, p: nat, q: nat, k: nat)
    requires OneByte(text) && size > 0 && p <= q && q + k <= |text|
    ensures Slot(text, hash, size, p, k) == Slot(text, hash, size, q, k)
  {
    assert text[p..p + k] == text[q..q + k];
  }

  // Inside a run the probe finds all that is left, up to 65536 bytes.
  lemma RunIsFound(text: seq<byte>, hash: seq<byte> -> nat, table: seq<int>, p: nat, q: nat)
    requires OneByte(text) && TableBefore(table, q) && p < q && q - p <= 0x1_0000 && q + 12 < |text|
    requires table[Slot(text, hash, |table|, q, 3)] == p
    ensures var b := Probe(text, hash, table, q, |text|);
            var c := Ladder(b.len, b.dist);
            && b.len == MatchMax(q, |text|) && 0 < b.dist <= q && c.Emit? && c.len == b.len
            && |MatchBytes(c.form, b.dist, b.len)| <= 5
  {
    hide Probe, MatchLen, Slot, TableBefore;
    var max := MatchMax(q, |text|);
    assert text[p..p + max] == text[q..q + max];
    EntryIsFound(text, hash, table, p, q, |text|, 3, max);
    var b := Probe(text, hash, table, q, |text|);
    LadderTotal(b.len, b.dist);
  }

  // After the record of q, later positions of a run find q.
  lemma RecordHolds(text: seq<byte>, hash: seq<byte> -> nat, table: seq<int>, q: nat, later: nat)
    requires OneByte(text) && TableBefore(table, q) && q + 13 <= |text| && q < later
    ensures var next := Record(text, hash, table, q);
            |next| == |table| && (later + 3 <= |text| ==> next[Slot(text, hash, |next|, later, 3)] == q)
  {
    hide Slot;
    if later + 3 <= |text| {
      SameSlot(text, hash, |table|, q, later, 3);
      assert IsSlot(text, hash, |table|, q, Slot(text, hash, |table|, q, 3));
    }
  }

  // The matches that a run of n bytes takes.
  function RunBlocks(n: nat): nat { (n + 0xffff) / 0x1_0000 }

  lemma OneBlockMore(n: nat, max: nat)
    requires 0 < n && max == if n > 0x1_0000 then 0x1_0000 else n
    ensures RunBlocks(n) == 1 + RunBlocks(n - max)
  {
  }

  // What the scan does in a run from a position behind a recorded one on: at
  // most five bytes per 65536, at most twelve left over.
  lemma {:induction false} ScanOfRun(text: seq<byte>, hash: seq<byte> -> nat, table: seq<int>, lit: nat, p: nat, q: nat)
    requires OneByte(text) && TableBefore(table, q) && p < q <= |text| && q - p <= 0x1_0000 && lit <= q
    requires q + 12 < |text| ==> table[Slot(text, hash, |table|, q, 3)] == p
    requires lit < q ==> q + 12 < |text|
    ensures var r := Scan(text, hash, table, lit, q, |text|, |text|);
            && |r.out| <= |LiteralBytes(text[lit..q])| + 5 * RunBlocks(|text| - q) && |text| - r.lit <= 12
    decreases |text| - q
  {
    hide Probe, Record, Ladder, MatchBytes, LiteralBytes, Scan, RunBlocks, Slot, OneByte;
    if q + 12 < |text| {
      var b, next := Probe(text, hash, table, q, |text|), Record(text, hash, table, q);
      RunIsFound(text, hash, table, p, q);
      ScanEmits(text, hash, table, lit, q, |text|, |text|);
      RecordHolds(text, hash, table, q, q + b.len);
      OneBlockMore(|text| - q, b.len);
      ScanOfRun(text, hash, next, q + b.len, q, q + b.len);
      FewLiterals(text[q + b.len..q + b.len]);
    } else {
      ScanStops(text, hash, table, lit, q, |text|, |text|);
    }
  }

  lemma NothingRecorded(text: seq<byte>, hash: seq<byte> -> nat, end: nat)
    requires 12 < end <= |text|
    ensures Probe(text, hash, EmptyTable(), 0, end) == Best(2, 0)
  {
  }

  // The scan of a whole run: one literal, then matches.
  lemma WholeRun(text: seq<byte>, hash: seq<byte> -> nat)
    requires OneByte(text) && |text| >= 14
    ensures var r := Scan(text, hash, EmptyTable(), 0, 0, |text|, |text|);
            && |r.out| <= 2 + 5 * RunBlocks(|text| - 1) && |text| - r.lit <= 12
            && (|text| <= 129 ==> |r.out| == 4 && r.lit == |text|)
  {
    hide Probe, Record, Ladder, MatchBytes, LiteralBytes, Scan, RunBlocks, Slot, OneByte;
    var start, n := EmptyTable(), |text|;
    var next := Record(text, hash, start, 0);
    NothingRecorded(text, hash, n);
    FirstIsLiteral();
    ScanPasses(text, hash, start, 0, 0, n, n);
    RecordHolds(text, hash, start, 0, 1);
    ScanOfRun(text, hash, next, 0, 0, 1);
    FewLiterals(text[0..1]);
    if n <= 129 { ShortRun(text, hash, next); }
  }

  lemma ShortRun(text: seq<byte>, hash: seq<byte> -> nat, table: seq<int>)
    requires OneByte(text) && TableBefore(table, 1) && 14 <= |text| <= 129
    requires table[Slot(text, hash, |table|, 1, 3)] == 0
    ensures var r := Scan(text, hash, table, 0, 1, |text|, |text|); |r.out| == 4 && r.lit == |text|
  {
    hide Probe, Record, Ladder, MatchBytes, LiteralBytes, Scan, Slot, OneByte;
    var b, next := Probe(text, hash, table, 1, |text|), Record(text, hash, table, 1);
    RunIsFound(text, hash, table, 0, 1);
    ScanEmits(text, hash, table, 0, 1, |text|, |text|);
    ScanStops(text, hash, next, |text|, |text|, |text|, |text|);
    FewLiterals(text[0..1]);
    ShortCode(b.len);
  }

  lemma ShortCode(len: nat)
    requires 2 < len <= 0x80
    ensures Ladder(len, 1) == Emit(Short, len) && |MatchBytes(Short, 1, len)| == 2
  {
  }

  // A run costs a constant and five bytes per 65536, whatever the hash; up to 129
  // bytes of it take 26.
  lemma RunCompresses(text: seq<byte>, hash: seq<byte> -> nat)
    requires OneByte(text)
    ensures |Stream(text, hash)| <= 42 + 5 * (|text| / 0x1_0000)
    ensures 14 <= |text| <= 129 ==> |Stream(text, hash)| == 26
  {
    hide LiteralBytes, Adler32.Adler, EmptyTable, Scan, OneByte, Stream, RunBlocks;
    var n := |text|;
    if n <= 13 {
      StreamCost(text, hash);
    } else {
      WholeRun(text, hash);
      StreamLength(text, hash);
      FewLiterals(text[Scan(text, hash, EmptyTable(), 0, 0, n, n).lit..]);
      RunBlocksBound(n);
    }
  }

  lemma RunBlocksBound(n: nat)
    requires n > 0
    ensures RunBlocks(n - 1) <= 1 + n / 0x1_0000
  {
  }

  lemma StreamLength(text: seq<byte>, hash: seq<byte> -> nat)
    ensures var r := Scan(text, hash, EmptyTable(), 0, 0, |text|, |text|);
            |Stream(text, hash)| == 22 + |r.out| + |LiteralBytes(text[r.lit..])|
  {
    hide Scan, LiteralBytes, Adler32.Adler, EmptyTable;
  }

  lemma FirstIsLiteral()
    ensures Ladder(2, 0) == Literal
  {
  }

  lemma FewLiterals(d: seq<byte>)
    requires |d| <= 32
    ensures |LiteralBytes(d)| == if d == [] then 0 else |d| + 1
  {
  }

  // The stream stays far below the caller's guess of length + length/4 + 516.
  lemma StreamCost(text: seq<byte>, hash: seq<byte> -> nat)
    ensures |Stream(text, hash)| <= |text| + |text| / 4 + 23
  {
    hide Scan, LiteralBytes, Adler32.Adler, EmptyTable, Stream;
    StreamLength(text, hash);
    var r := Scan(text, hash, EmptyTable(), 0, 0, |text|, |text|);
    ScanCost(text, hash, EmptyTable(), 0, 0, |text|, |text|);
    LiteralsCost(text[r.lit..]);
  }
}
