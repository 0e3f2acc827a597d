// binary_to_compressed_c with -base85: buffer allocation, compression, printing.
module EmbedTool {
  import opened Bytes
  import opened Wrappers
  import opened LzFormat
  import opened Base85
  import Adler32
  import LzScan
  import LzCompressor

  function Payload(data: seq<byte>, useCompression: bool, hash: seq<byte> -> nat): seq<byte> {
    if useCompression then LzScan.Stream(data, hash) else data
  }

  // Both buffers leave zero bytes behind the payload, so reading whole words
  // past its end is in bounds and pads with zeros.
  method BinaryToBase85(data: seq<byte>, useCompression: bool, hash: seq<byte> -> nat)
    returns (declared: nat, out: string)
    requires |data| + |data| / 4 + 512 + 4 < 0x8000_0000
    ensures var c := Chars(Padded(Payload(data, useCompression, hash)));
            out == Printed(c) && declared == |c|
    ensures NoTrigraph(out) && var c := ReadC(out + "\";", true); c.Some? && |c.value| == declared
    ensures !useCompression ==> ReadBack(out) == Some(Padded(data))
    ensures useCompression ==>
              exists n: nat :: Recovered(out, n) == Some(Decoded(data, |data|, 0x4_0000, Adler32.Adler(1, data)))
  {
    hide LzScan.Stream, Printed, Padded, Chars, ReadC, ReadBack, Recovered, NoTrigraph;
    var maxlen := |data| + 512 + |data| / 4 + 4;
    var compressed := new byte[if useCompression then maxlen else |data| + 4](_ => 0);
    var size := |data|;
    if useCompression {
      LzScan.StreamCost(data, hash);
      size := LzCompressor.StbCompress(compressed, data, hash);
    } else {
      Fill(compressed, data);
    }
    ClearFrom(compressed, size);
    out := PrintBase85(compressed, size);
    declared := (size + 3) / 4 * 5;
    TextCarriesPayload(compressed[..size]);
    if useCompression { EmbedRoundTrip(data, hash, compressed[..size]); }
  }

  method Fill(a: array<byte>, d: seq<byte>)
    requires |d| <= a.Length
    modifies a
    ensures a[..|d|] == d
  {
    for i := 0 to |d|
      invariant a[..i] == d[..i]
    {
      a[i] := d[i];
    }
  }

  // memset to zero behind the payload.
  method ClearFrom(a: array<byte>, n: nat)
    requires n <= a.Length
    modifies a
    ensures a[..n] == old(a[..n])
    ensures n + 3 <= a.Length ==> Padded(a[..n]) <= a[..]
  {
    for i := n to a.Length
      invariant a[..n] == old(a[..n])
      invariant forall j :: n <= j < i ==> a[j] == 0
    {
      a[i] := 0;
    }
  }

  // What a C compiler and a Base85 decoder make of the printed text.
  function ReadBack(text: string): Option<seq<byte>> {
    match ReadC(text + "\";", true)
    case None => None
    case Some(c) => if |c| % 5 == 0 then Some(ToBytes(c)) else None
  }

  lemma ReadsEnd()
    ensures ReadC("\";", true) == Some("")
  {
  }

  // The printed text, read back, is the zero-padded payload; no trigraph forms.
  lemma TextCarriesPayload(p: seq<byte>)
    ensures ReadBack(Printed(Chars(Padded(p)))) == Some(Padded(p))
    ensures NoTrigraph(Printed(Chars(Padded(p))))
    ensures ReadC(Printed(Chars(Padded(p))) + "\";", true) == Some(Chars(Padded(p)))
  {
    hide ReadC, Printed, Chars, Padded, ToBytes, NoTrigraph;
    var c := Chars(Padded(p));
    CharsRoundTrip(Padded(p));
    CharsPlain(Padded(p));
    ReadsPrinted(c, "\";");
    ReadsEnd();
    assert c + "" == c;
    PrintedHasNoTrigraph(c);
  }

  function Recovered(text: string, size: nat): Option<Decoded> {
    match ReadBack(text)
    case None => None
    case Some(b) => if size <= |b| then Decode(b[..size]) else None
  }

  // From source text back to the file: read by C, decoded from Base85,
  // decompressed.
  lemma EmbedRoundTrip(data: seq<byte>, hash: seq<byte> -> nat, s: seq<byte>)
    requires |data| < 0x8000_0000 && s == LzScan.Stream(data, hash)
    ensures Recovered(Printed(Chars(Padded(s))), |s|) ==
              Some(Decoded(data, |data|, 0x4_0000, Adler32.Adler(1, data)))
  {
    hide LzScan.Stream, ReadBack, Printed, Chars, Padded, Decode;
    TextCarriesPayload(s);
    LzScan.RoundTrip(data, hash);
    assert Padded(s)[..|s|] == s;
  }
}
