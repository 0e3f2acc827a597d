# Verified models of cpaf's algorithms

This project models the self-contained algorithms of cpaf in Dafny and proves
what they are for. `dafny verify dfyconfig.toml` checks all of it.

| files | what they model |
|---|---|
| LzFormat, LzScan, LzCompressor, Adler32 | the LZ compressor of `binary_to_compressed_c.cpp`: its opcode grammar with a reader, its exact output for an arbitrary hash function, and the imperative writer with output cursor, in-place hash table and running Adler-32 |
| Base85, EmbedTool | the Base85 printer into C string literals, a reader of C literals, and the tool end to end |
| Glob, SpaceCollapse | `wildcmp_c` and the `simplify_whitespace` fixpoint loop |
| Md5Word, Md5Spec, Md5Vector, Md5Sum | RFC 1321 as a one-shot function with an entry of its test suite, and the buffered writer with its copying finaliser |
| PieceRange, StreamingCache, TorrentFile | byte ranges to piece ranges, the locked steps of the streaming cache under any interleaving of alerts, and blocking `read` and `seek` on a file in a torrent |
| TempStorage | whole-piece buffers in memory and the slot table with its free list |
| DynamicArray, FileSlurp | the growable array with terminator and amortised cost, and the read-and-grow loop on top of it |
| Strings, UrlText, Url | splitting and joining, domains and parameters, and the cursor-passing URL parser with its printer |
| Whitespace, NameId | the one-pass white space canonicaliser and the id encoder |
| Common | an option type and the byte type |

## How to read the models

Where the program works by assignment, the model is a method or a class with
the program's fields. Each such method is tied to a function of its inputs or of
the old state, and the theorems are about those functions or are stated in the
method's contract.

* **Compressor.** The reader in `LzFormat` is written from the opcode ranges the
  writer uses; the repository ships no reader. `LzScan.Scan` is the writer's exact
  output; its hash is an arbitrary function of the 3, 5, 9 and 13 bytes at the
  current position, reduced by the table size as the `& mask` does. Every theorem
  holds for all such functions. The buffer is an array of the size the tool
  allocates, so that no write out of bounds is part of what is proved.
* **MD5.** Words are `bv32`, the position is a number that wraps at 2^64 as
  written, and the length field is that of RFC 1321 for messages of any length.
  The constant table T is copied; `Md5OfText` confirms all of it.
* **Torrent.** The libtorrent session is an environment. In `StreamingCache` a
  run is any sequence of requests and alerts; in `GetPiecesData` the request of
  every single piece and every poll is preceded by an arbitrary batch of them, and
  the number of polls stands for the timeout. `deadlines` and `pending` record
  what the session has been asked for.
  `map_file` is quotient and remainder of the absolute offset by the piece length,
  for offsets inside the torrent. `piece_index_end()` is a parameter between the
  last piece and one past it: `torrent.h:73` uses it as an exclusive end, its body
  returns the last piece. What that costs is stated exactly: which ranges are
  still the minimal cover (`RangeIsMinimalCover`), which reads deliver all there
  is (`ReadsAllUnlessClipped`), and which can never deliver a byte, for an empty
  range (`EmptyRangeExactly`, `DeliversExactly`). `ReadsNothingExactly` says what a
  read of 0 bytes means, `StaysInFileExactly` when a read runs into the next file.
  In `cache_pieces_t::is_valid` the code
  returns before its loop over the pieces; the model follows the code.
* **Streams.** A read sets the end flag only when it runs short of the count. The
  size on disk is a parameter of its own, apart from the content.
* **URLs.** `fs::path` is its text. The round trip is stated for protocol http,
  https or ftp, a canonical domain, an empty or plain path, and parameters only
  behind a path; inside that set the one failing family is characterised exactly.
* **Text.** UTF-16 code units are Dafny characters.

Not every property one would like holds of the code. Failed piece reads can lose
a request (`StepLosesExactly` says when), a reserve size of 1 never reaches the
end of a stream (`ReadLoopEnds`), a first dot that opens .asp or .php makes the
parser lose the protocol (`Url.RoundTrip`, `ScriptDotBreaksRoundTrip`), and ids
collide: `IdTellsNameExactly` says for every simplified name whether its id
belongs to it alone, and `DashCollides` and `TildeCollides` are two that do not.
Names free of `~` and `-` never collide with one another (`IdsAreInjective`).

## Model

| member | source | states |
|---|---|---|
| LzScan.RoundTrip | cpaf_libs/executables/binary_to_compressed_c.cpp:345-388 | for every text and every hash function, decoding the emitted stream up to 05FA gives exactly the text; the header carries its length and the window, the trailer its Adler-32 |
| LzScan.StreamCost | cpaf_libs/executables/binary_to_compressed_c.cpp:85 | the stream is never longer than length + length/4 + 23, well inside the caller's guess of length + length/4 + 516 |
| LzScan.LadderTotal | cpaf_libs/executables/binary_to_compressed_c.cpp:223-331 | every acceptable match is emitted whole by one of the first four branches, with fields that fit, fewer bytes than it replaces and no more than any other form would take; neither the fallback nor the 06/04 forms are reached |
| LzScan.ProbeIsBest | cpaf_libs/executables/binary_to_compressed_c.cpp:263-289 | the chosen match is at least as long as the acceptable match of each of the four candidates, so skipping a distance already tried loses nothing |
| LzScan.RepeatIsFound | cpaf_libs/executables/binary_to_compressed_c.cpp:263-293 | for every hash, thirteen bytes recorded one probe ago and not further back than 256K are found again, as a match of at least thirteen bytes |
| LzScan.RunCompresses | cpaf_libs/executables/binary_to_compressed_c.cpp:345-378 | a text of one repeated byte takes at most 42 bytes and five per 65536, whatever the hash; 14 to 129 of them take exactly 26 |
| LzScan.AcceptedFrom | cpaf_libs/executables/binary_to_compressed_c.cpp:223-228 | a match is accepted inside the 256K window from 3 bytes on at distances up to 256, from 6 up to 16384, from 8 beyond |
| LzScan.ScanYields | cpaf_libs/executables/binary_to_compressed_c.cpp:240-343 | from any table, position and pending literals, the bytes of one chunk expand the text before the pending literals to the text up to the next pending ones |
| LzScan.ScanCost | cpaf_libs/executables/binary_to_compressed_c.cpp:259-332 | the bytes of a chunk are at most 5/4 of the text they cover: each match pays for the literal header before it |
| LzScan.LiteralsYield | cpaf_libs/executables/binary_to_compressed_c.cpp:201-219 | literal runs of any length, over 65536 included, decode to themselves |
| LzScan.LiteralsCost | cpaf_libs/executables/binary_to_compressed_c.cpp:201-219 | beyond the first byte a quarter of the run pays for its headers |
| LzScan.MatchLenIsLongest | cpaf_libs/executables/binary_to_compressed_c.cpp:174-180 | stb_matchlen is the longest agreement up to the limit |
| LzFormat.CopyReproduces | cpaf_libs/executables/binary_to_compressed_c.cpp:174-180 | a match that agrees with the text ahead reproduces it when copied byte by byte, also when it overlaps itself |
| LzFormat.ReadsBack | cpaf_libs/executables/binary_to_compressed_c.cpp:197-331 | reading undoes writing for every literal and match opcode, whatever bytes follow |
| LzFormat.UniquelyDecodable | cpaf_libs/executables/binary_to_compressed_c.cpp:197-331 | the opcode grammar is a prefix code: equal byte streams start with equal operations and leave equal rests |
| LzFormat.NotEndOpcode | cpaf_libs/executables/binary_to_compressed_c.cpp:210-212 | no operation starts with the first byte of the end opcode |
| LzCompressor.StbMatchlen | cpaf_libs/executables/binary_to_compressed_c.cpp:174-180 | the loop computes the longest agreement |
| LzCompressor.TryMatch | cpaf_libs/executables/binary_to_compressed_c.cpp:270-276 | one probe: keeps the better of the candidate so far and the table entry's match, if acceptable |
| LzCompressor.ProbeTable | cpaf_libs/executables/binary_to_compressed_c.cpp:278-293 | the four probes in order, and only then the in-place update of all four slots, and of no other |
| LzCompressor.Compressor.StbOut4 | cpaf_libs/executables/binary_to_compressed_c.cpp:195-199 | four bytes, most significant first, behind what was written |
| LzCompressor.Compressor.OutLiterals | cpaf_libs/executables/binary_to_compressed_c.cpp:201-219 | the recursive block loop writes exactly the literal encoding of the run and stays in the buffer |
| LzCompressor.Compressor.OutMatch | cpaf_libs/executables/binary_to_compressed_c.cpp:301-328 | each branch writes its opcode, distance and length fields |
| LzCompressor.Compressor.CompressAt | cpaf_libs/executables/binary_to_compressed_c.cpp:259-332 | one turn of the loop writes the bytes, updates the table and moves the pointers as the scan from there prescribes |
| LzCompressor.Compressor.StbCompressChunk | cpaf_libs/executables/binary_to_compressed_c.cpp:240-343 | a chunk with pending literals writes the scan's bytes, leaves the scan's table, and reports what it consumed and what is pending; the running checksum covers the chunk |
| LzCompressor.Compressor.StbCompressInner | cpaf_libs/executables/binary_to_compressed_c.cpp:345-378 | the whole stream, written inside the buffer the caller sized |
| LzCompressor.StbCompress | cpaf_libs/executables/binary_to_compressed_c.cpp:380-388 | the returned length delimits exactly the stream of the input, with no write out of bounds |
| Adler32.StbAdler32 | cpaf_libs/executables/binary_to_compressed_c.cpp:143-172 | deferred modulo in 5552-byte blocks equals the byte-by-byte checksum for every length and valid start value; an empty first block does not stop the loop |
| Adler32.AddBlock | cpaf_libs/executables/binary_to_compressed_c.cpp:150-169 | one block, its 32-bit sums never overflowing |
| Adler32.BlockFits | cpaf_libs/executables/binary_to_compressed_c.cpp:150-168 | after at most 5552 bytes the second sum is below 2^32 |
| Adler32.FoldIsPlainSums | cpaf_libs/executables/binary_to_compressed_c.cpp:143-172 | the byte-by-byte sums are the plain sums of section 2.2 of RFC 1950 modulo 65521 |
| Adler32.AdlerConcat | cpaf_libs/executables/binary_to_compressed_c.cpp:143-172 | checksums compose over concatenation, and a checksum is a valid start value |
| Adler32.AdlerIsOfPlainSums | cpaf_libs/executables/binary_to_compressed_c.cpp:143-172 | the checksum is s2 times 65536 plus s1, the plain sums modulo 65521 |
| Adler32.PlainSumsSnoc | cpaf_libs/executables/binary_to_compressed_c.cpp:143-172 | a byte more adds itself to the plain s1, and the new s1 to the plain s2 |
| Adler32.AdlerOfAbc | cpaf_libs/executables/binary_to_compressed_c.cpp:143-172 | the checksum of abc is 024d0127 |
| Base85.CharRoundTrip | cpaf_libs/executables/binary_to_compressed_c.cpp:66-70 | every digit prints as a character other than quote, backslash or line end, and reads back |
| Base85.DigitsRoundTrip | cpaf_libs/executables/binary_to_compressed_c.cpp:104-110 | n digits, least significant first, hold every value below 85^n |
| Base85.CharsRoundTrip | cpaf_libs/executables/binary_to_compressed_c.cpp:101-110 | the characters of whole little-endian words decode to their bytes |
| Base85.ReadsPrinted | cpaf_libs/executables/binary_to_compressed_c.cpp:99-114 | C reads the printed literals, joined and unescaped, as the characters printed |
| Base85.PrintedHasNoTrigraph | cpaf_libs/executables/binary_to_compressed_c.cpp:103-110 | no two question marks are adjacent in the printed text |
| Base85.PrintedLength | cpaf_libs/executables/binary_to_compressed_c.cpp:99-114 | only a question mark behind another is escaped, and every 140 characters one line break is printed |
| Base85.PrintWord | cpaf_libs/executables/binary_to_compressed_c.cpp:104-112 | the digit loop with its escape, and the line break after every 112 bytes |
| Base85.PrintBase85 | cpaf_libs/executables/binary_to_compressed_c.cpp:100-114 | the output loop prints the zero-padded bytes, character by character |
| EmbedTool.BinaryToBase85 | cpaf_libs/executables/binary_to_compressed_c.cpp:72-137 | with or without compression the printed text is that of the zero-padded payload, and the declared array size is its number of characters; with compression the printed text can be read, decoded and decompressed to the file, without it is the padded file |
| EmbedTool.TextCarriesPayload | cpaf_libs/executables/binary_to_compressed_c.cpp:97-115 | the printed text read back is the payload padded to whole words, free of trigraphs |
| EmbedTool.EmbedRoundTrip | cpaf_libs/executables/binary_to_compressed_c.cpp:84-115 | source text, read by C, decoded and decompressed, is the file |
| Glob.Wildcmp | cpaf_libs/utils/cpaf_string_utils.cpp:195-237 | true exactly when the recursive meaning of * and ? holds, for all NUL-free texts and patterns; terminates on the star, start and pattern positions |
| Glob.MatchesConcat | cpaf_libs/utils/cpaf_string_utils.cpp:195-237 | the recursive meaning cuts: a text matches two patterns in a row exactly when it can be cut into a match of each |
| Glob.MatchesSingle | cpaf_libs/utils/cpaf_string_utils.cpp:195-237 | a star matches any text, a question mark any one character, another character only itself |
| Glob.LatestStarSuffices | cpaf_libs/utils/cpaf_string_utils.cpp:211-219 | when the part between two stars has been matched, every match of the whole is a match behind the newer star |
| Glob.NewStar | cpaf_libs/utils/cpaf_string_utils.cpp:211-219 | a new star replaces the backtrack point without losing a match |
| Glob.AttemptFails | cpaf_libs/utils/cpaf_string_utils.cpp:225-229 | restarting one character further loses no match |
| Glob.TextUsedUp | cpaf_libs/utils/cpaf_string_utils.cpp:232-236 | at the end of the text only the current attempt can still succeed |
| SpaceCollapse.SimplifyWhitespace | cpaf_libs/utils/cpaf_string_utils.cpp:12-26 | the fixpoint loop ends, leaves no double space, and equals dropping every space after a space |
| SpaceCollapse.CollapsedIsSimple | cpaf_libs/utils/cpaf_string_utils.cpp:12-26 | the result is one line without non-breaking or double spaces and without white space at its ends |
| SpaceCollapse.TrimCutsSpace | cpaf_libs/utils/cpaf_string_utils.cpp:20 | trimming cuts white space off both ends and nothing else |
| SpaceCollapse.SpaceIs | cpaf_libs/utils/cpaf_string_utils.cpp:20 | what is trimmed is the white space of the classic locale |
| SpaceCollapse.PassKeepsCollapse | cpaf_libs/utils/cpaf_string_utils.cpp:22-24 | a replacement pass keeps the collapsed text |
| Md5Sum.Md5Sum.Write | cpaf_libs/crypto/md5sum.cpp:49-60 | any chunk, of any size: the object now stands for the bytes before followed by the chunk |
| Md5Sum.Md5Sum.Sum | cpaf_libs/crypto/md5sum.cpp:62-83 | the one-shot MD5 of everything written, leaving the object as it is |
| Md5Vector.Md5OfText | cpaf_libs/crypto/md5sum.cpp:11-83 | the digest of the alphabet is the one in the test suite of RFC 1321 (section A.5), followed through all 64 steps |
| Md5Spec.CompressAdds | cpaf_libs/crypto/md5sum.cpp:43-46 | each register ends as its old value plus what the rounds made of it |
| Md5Spec.LengthFieldValue | cpaf_libs/crypto/md5sum.cpp:74-76 | the length field holds the base-256 digits of the length, low-order first |
| Md5Word.RotatesOne | cpaf_libs/crypto/md5sum.h:39-41 | rotation by one doubles and brings the top bit round |
| Md5Spec.OutputLoadsBack | cpaf_libs/crypto/md5sum.cpp:78-82 | the digest is the one text of 16 bytes that, loaded low-order byte first as message words are, gives the registers A to D (section 3.5 of RFC 1321) |
| Md5Sum.PutState | cpaf_libs/crypto/md5sum.cpp:78-82 | the output loop writes those bytes |
| Md5Sum.Md5Sum.WriteSome | cpaf_libs/crypto/md5sum.cpp:51-58 | one turn of the loop: copy into the buffer, move the wrapping position, absorb a full block |
| Md5Sum.Update | cpaf_libs/crypto/md5sum.cpp:11-47 | the register-rotating 64 steps equal the block function of section 3.4 of RFC 1321 with fixed registers and rotating roles |
| Md5Sum.RotatedStep | cpaf_libs/crypto/md5sum.cpp:37-41 | one step keeps the rotating registers in step with the fixed ones |
| Md5Sum.StepIsOperation | cpaf_libs/crypto/md5sum.cpp:22-40 | a step computes the RFC's operation: same function, word, constant and shift |
| Md5Sum.TablesAgree | cpaf_libs/crypto/md5sum.h:13-18 | the flat shift table and the index formulas are the RFC's per-round tables |
| Md5Sum.PadBuffer | cpaf_libs/crypto/md5sum.cpp:66-73 | the end byte and zero fill; a rest over 55 bytes costs a block of its own |
| Md5Sum.PaddedTail | cpaf_libs/crypto/md5sum.cpp:65-77 | padding ends in one or two blocks of exactly this shape |
| Md5Sum.WrappedLength | cpaf_libs/crypto/md5sum.cpp:74-76 | the length field computed from the wrapped 64-bit position is the length in bits modulo 2^64 |
| Md5Sum.WrappedMod64 | cpaf_libs/crypto/md5sum.cpp:51-56 | the wrapped position still tells the place in the buffer |
| PieceRange.GetPiecesRange | cpaf_libs/torrent/torrent.cpp:313-358 | the step-by-step range equals the one computed from the piece of the last byte, clipped or dropped as stated there |
| PieceRange.CoverIsExact | cpaf_libs/torrent/torrent.cpp:313-358 | the pieces from the first to the last byte's piece are exactly those that hold one of the bytes |
| PieceRange.RangeIsMinimalCover | cpaf_libs/torrent/torrent.cpp:313-358 | the range is that cover exactly when the true end is not past piece_index_end(), or one piece is enough |
| PieceRange.EmptyRangeExactly | cpaf_libs/torrent/torrent.cpp:331-357 | inside the torrent the range is empty exactly when too many further pieces are asked for, or the bytes start in the piece piece_index_end() names and go on behind it |
| PieceRange.ClippedRead | cpaf_libs/torrent/torrent.cpp:252-262 | a read of both pieces of a two-piece torrent gets a range of one |
| PieceRange.EmptyRead | cpaf_libs/torrent/torrent.cpp:252-262 | a read of five bytes from the last piece, which has four, gets an empty range |
| PieceRange.NoRangeIs | cpaf_libs/torrent/torrent.cpp:313-358 | without metadata, or for too many further pieces, the range is the default one, -1 to -1 |
| PieceRange.RangeIsOrdered | cpaf_libs/torrent/torrent.cpp:335-357 | inside the torrent begin <= end, so loops over the range stop, and the start offset is that of the first byte |
| PieceRange.RoundUp | cpaf_libs/torrent/torrent.cpp:345-350 | remainder and quotient as used round up |
| PieceRange.GetPiecesReadAheadRange | cpaf_libs/torrent/torrent.cpp:360-387 | the read-ahead range, including the two pieces that truncation gives a size below one piece |
| PieceRange.ReadAheadCovers | cpaf_libs/torrent/torrent.cpp:360-387 | the read-ahead covers the size asked for, and from one piece on asks for no piece more than that |
| PieceRange.EnsurePieceRangeValid | cpaf_libs/torrent/torrent.cpp:259-262 | the end is clipped to piece_index_end() |
| StreamingCache.RunsAreSafe | cpaf_libs/torrent/streaming_cache.cpp:138-188 | over every interleaving of requests, finished pieces and successful reads no request is lost, requested and downloaded stay disjoint, and every valid entry is the true piece from offset 0 |
| StreamingCache.DownloadedExactly | cpaf_libs/torrent/streaming_cache.cpp:164-178 | over every run, failed reads included, exactly the announced pieces are downloaded, and an announcement is waited for only where it was asked for and has not come |
| StreamingCache.CachedExactly | cpaf_libs/torrent/streaming_cache.cpp:180-214 | over every run a piece is in the cache exactly when the latest answer for it was a success |
| StreamingCache.ReadsAreAskedFor | cpaf_libs/torrent/streaming_cache.cpp:138-178 | over every run no piece has more reads under way than it had requests |
| StreamingCache.OrdinaryRuns | cpaf_libs/torrent/streaming_cache.cpp:138-188 | the whole state behind asking, announcing and reading a piece, and behind announcing it first |
| StreamingCache.StepLosesExactly | cpaf_libs/torrent/streaming_cache.cpp:180-214 | a step loses a request exactly when it is a failed read of a requested piece that is no longer in the requested set and has no second read outstanding |
| StreamingCache.FailedReadLosesRequest | cpaf_libs/torrent/streaming_cache.cpp:209-214 | a request, its announcement and a failed read leave the piece downloaded, not cached, not requested and not being read |
| StreamingCache.AnsweredRequestIsCached | cpaf_libs/torrent/streaming_cache.cpp:164-188 | a requested piece that was announced and whose reads were all answered is in the cache |
| StreamingCache.WaitDelivers | cpaf_libs/torrent/streaming_cache.cpp:92-117 | whatever happens while waiting, failed reads included, pieces come only whole and true with the range's start offset, an abort only when asked for |
| StreamingCache.WaitEnds | cpaf_libs/torrent/streaming_cache.cpp:92-117 | where no piece read fails, a wait for requested pieces ends in an abort, with all of them in the cache, or with one still being read or to be announced |
| StreamingCache.WaitDecides | cpaf_libs/torrent/streaming_cache.cpp:92-117 | the first poll that asks for an abort or finds a non-empty range whole decides what the wait returns; without one it returns nothing |
| StreamingCache.AbortsExactly | cpaf_libs/torrent/streaming_cache.cpp:99-107 | an abort is returned exactly when one is asked for before the range is whole |
| StreamingCache.StreamingCache.IsPieceInCache | cpaf_libs/torrent/streaming_cache.h:54 | looking a piece up inserts a default entry |
| StreamingCache.StreamingCache.RequestPiece | cpaf_libs/torrent/streaming_cache.cpp:138-155 | cached pieces are left, downloaded ones read again, others requested with a deadline |
| StreamingCache.StreamingCache.RequestPieces | cpaf_libs/torrent/streaming_cache.cpp:157-162 | every piece of the range in order, each under its own lock with any events before it |
| StreamingCache.StreamingCache.HandlePieceFinished | cpaf_libs/torrent/streaming_cache.cpp:164-178 | the piece is downloaded; a requested one is read and no longer requested |
| StreamingCache.StreamingCache.HandlePieceRead | cpaf_libs/torrent/streaming_cache.cpp:180-214 | the alert's buffer becomes the entry |
| StreamingCache.StreamingCache.TryGetPiecesData | cpaf_libs/torrent/streaming_cache.cpp:216-234 | all pieces of a non-empty range or none; the start offset is set on the copy only |
| StreamingCache.StreamingCache.GetPiecesData | cpaf_libs/torrent/streaming_cache.cpp:92-117 | the wait loop: request piece by piece with any events between, then abort, cancel or collect, poll by poll, until the time is up; the cancel state is completed when a cancel ended the wait, and reset otherwise |
| TorrentFile.File.Read | cpaf_libs/torrent/file.cpp:21-64 | k bytes read are exactly the content behind the offset, which moves by k; -1 on abort and 0 on timeout leave offset and buffer alone; reads since the last seek concatenate; an abort asked for at the first poll gives -1; behind a delivery the read-ahead is requested |
| TorrentFile.File.Seek | cpaf_libs/torrent/file.cpp:71-102 | the offset is assigned in every case, also when -1 is returned for a target outside the file; a blocking seek inside it returns 0 exactly when the 16 KiB behind the new offset were delivered; the cache is left as the read-ahead and the blocking fetch leave it |
| TorrentFile.ReadingServesAhead | cpaf_libs/torrent/file.cpp:55-59 | behind a read that delivered, every piece of the read-ahead is cached, being read or asked for |
| TorrentFile.File.SoughtServes | cpaf_libs/torrent/file.cpp:104-112 | behind a seek into the file, every piece of the read-ahead is cached, being read or asked for |
| TorrentFile.CopyPieces | cpaf_libs/torrent/file.cpp:37-53 | the copy loop delivers the joined pieces up to the size asked for and writes nothing else |
| TorrentFile.FetchDelivers | cpaf_libs/torrent/torrent.cpp:305-311 | fetched pieces joined are the content from the first byte asked for to the end of the range |
| TorrentFile.FlatIsContent | cpaf_libs/torrent/file.cpp:37-53 | true pieces in order, the first from the start offset, are contiguous content |
| TorrentFile.ReadsAllUnlessClipped | cpaf_libs/torrent/torrent.cpp:252-262 | whatever the cache and the events, a read that delivers gives all existing bytes asked for exactly unless the range was clipped before the last piece |
| TorrentFile.StaysInFileExactly | cpaf_libs/torrent/file.cpp:21-64 | a read never stops at the end of its file: what it delivers stays inside exactly when no more was asked for, the file ends the torrent, or the range was clipped inside the file |
| TorrentFile.ReadsNextFile | cpaf_libs/torrent/file.cpp:21-64 | eight bytes read from a file of three: five are those of the next file |
| TorrentFile.DeliversExactly | cpaf_libs/torrent/torrent.cpp:305-358 | from every cache state, some course of events lets a read give a byte exactly when its range is not empty; with piece_index_end() the last piece, a read from that piece past its boundary never gives one |
| TorrentFile.ReadsNothingExactly | cpaf_libs/torrent/file.cpp:21-41 | where no piece read fails and nobody aborts, a read gives 0 exactly when its range was empty or a piece of it is still being read or to be announced |
| TempStorage.TempStorage.Writev | cpaf_libs/torrent/temp_storage.cpp:35-47 | a piece is allocated whole at its first write, no buffer is ever replaced, and the buffers hold what all writes so far leave behind |
| TempStorage.TempStorage.Readv | cpaf_libs/torrent/temp_storage.cpp:17-33 | each byte read is the latest one written there, zero if none; end of file exactly for unwritten pieces or a start past the piece |
| TempStorage.ReplayIsLatest | cpaf_libs/torrent/temp_storage.cpp:35-47 | exactly the written pieces have buffers, and every byte in them is the latest write |
| TempStorage.LastWriteWins | cpaf_libs/torrent/temp_storage.cpp:35-47 | the last write to a byte decides it, and unwritten bytes are zero |
| TempStorage.SizesSumToTotal | cpaf_libs/torrent/temp_storage.cpp:97-102 | the piece sizes sum to the total size |
| TempStorage.LastPieceSize | cpaf_libs/torrent/temp_storage.cpp:97-102 | the last piece is non-empty and at most a full piece |
| TempStorage.TempDiskIo.NewTorrent | cpaf_libs/torrent/temp_storage.cpp:121-130 | the index handed out was not live, other entries are untouched, the free list stays exact, and the table grows only when every slot is live |
| TempStorage.TempDiskIo.RemoveTorrent | cpaf_libs/torrent/temp_storage.cpp:132-136 | only this index dies and joins the free list once |
| TempStorage.TempDiskIo.Pop | cpaf_libs/torrent/temp_storage.cpp:108-114 | the last free slot is taken |
| DynamicArray.DynamicArray.PushBack | cpaf_libs/containers/cpaf_dynamic_array.hpp:299-317 | appends one element, keeps the terminator, and keeps the elements ever copied by reserve within twice the size |
| DynamicArray.DynamicArray.Append | cpaf_libs/containers/cpaf_dynamic_array.hpp:331-336 | appends n elements and the extra ones behind them, within the same cost bound |
| DynamicArray.DynamicArray.Assign | cpaf_libs/containers/cpaf_dynamic_array.hpp:159-164 | replaces the contents, growing only when needed |
| DynamicArray.DynamicArray.Reserve | cpaf_libs/containers/cpaf_dynamic_array.hpp:203-214 | same contents in a fresh zeroed buffer of the new capacity, plus the extra elements at the first allocation; a capacity down to the size is accepted, and the invariant is kept exactly when the extra elements still fit or nothing stays allocated |
| DynamicArray.DynamicArray.ReserveForAppend | cpaf_libs/containers/cpaf_dynamic_array.hpp:216-227 | room for the elements and the extra ones; a growth at least doubles the capacity |
| FileSlurp.ToString8 | cpaf_libs/streams/cpaf_streams.cpp:162-186 | for every opened stream, size on disk and reserve size of at least 2: ends, each read has room, and the result is the whole content followed by a zero |
| FileSlurp.ReadLoopEnds | cpaf_libs/streams/cpaf_streams.cpp:170-183 | reading in steps of n reaches the end of a stream exactly when n > 0 |
| FileSlurp.OneReadIsEnough | cpaf_libs/streams/cpaf_streams.cpp:152-160 | two more than the size of a plain file is the least reserve size with which one read reaches the end |
| FileSlurp.RequestedSize | cpaf_libs/streams/cpaf_streams.cpp:166-168 | a reserve size given by the caller is taken as it is |
| Url.RoundTrip | cpaf_libs/net/cpaf_url.cpp:76-84 | printing a well-formed URL and parsing the text gives the URL back exactly when the text's first dot does not open .asp or .php |
| Url.ScriptDotBreaksRoundTrip | cpaf_libs/net/cpaf_url_string_functions.cpp:66-88 | the well-formed http://localhost/index.php does not come back |
| Url.Url.Assign | cpaf_libs/net/cpaf_url.cpp:252-283 | the fields are what the parsers find, each starting where the one before stopped |
| Url.Url.String | cpaf_libs/net/cpaf_url.cpp:76-84 | protocol, domain, path and parameters, each only when present |
| Url.ProtocolParses | cpaf_libs/net/cpaf_url_string_functions.cpp:66-88 | a known protocol in front of :// is recognised |
| Url.DomainParses | cpaf_libs/net/cpaf_url_string_functions.cpp:95-119 | the domain ends at the first slash or at the end of the text |
| Url.PathParses | cpaf_libs/net/cpaf_url_string_functions.cpp:126-156 | a plain path ends at the first question mark or at the end of the text |
| Url.PathIsTidied | cpaf_libs/net/cpaf_url_string_functions.cpp:147-155 | a slash at the end of a path is dropped, a missing one in front supplied, a lone slash is no path |
| Url.BareRoundTrip | cpaf_libs/net/cpaf_url.cpp:252-283 | the round trip also holds without a protocol, for a text without a colon |
| Url.PathHasNoDomain | cpaf_libs/net/cpaf_url_string_functions.cpp:22-38 | a text that starts like a path or parameters has neither protocol nor domain |
| Url.UnknownProtocolDropped | cpaf_libs/net/cpaf_url_string_functions.cpp:66-88 | an unknown protocol is dropped with the two characters behind its name |
| Url.MailtoHasNoProtocol | cpaf_libs/net/cpaf_url_string_functions.cpp:66-88 | a mail address has no protocol split off |
| Url.ScriptDotIs | cpaf_libs/net/cpaf_url_string_functions.cpp:30-36 | only the first dot counts, when asp or php follows it |
| Url.NamesFileIs | cpaf_libs/net/cpaf_url.cpp:281-282 | a path names a file unless its last component is one dot or two |
| UrlText.DomainRoundTrip | cpaf_libs/net/cpaf_url_string_functions.cpp:187-209 | printing and splitting a domain is the identity exactly on canonical ones: dot-free parts, co.uk kept together |
| UrlText.SplitDomain | cpaf_libs/net/cpaf_url_string_functions.cpp:187-209 | the parts in reverse order with a leading two-component top domain |
| UrlText.DomainAsString | cpaf_libs/net/cpaf_url.cpp:88-97 | the parts joined back to front |
| UrlText.SplitParameters | cpaf_libs/net/cpaf_url_string_functions.cpp:212-239 | the character loop equals cutting at every & and then at the first = of each stretch; an empty text leaves the vector as it was |
| Url.Url.SetParameters | cpaf_libs/net/cpaf_url.cpp:65-69 | setting an empty text leaves the parameters as they were |
| UrlText.ParametersRoundTrip | cpaf_libs/net/cpaf_url.cpp:100-108 | parameters free of & and = come back from their text |
| UrlText.ParametersAsString | cpaf_libs/net/cpaf_url.cpp:100-108 | a question mark and the name=value texts joined by & |
| Whitespace.SimplifyWhiteSpaceCopy | cpaf_libs/unicode/cpaf_u16string_utils.cpp:307-373 | both forms give the maximal runs of kept characters joined by one space |
| Whitespace.SimplifiedTwice | cpaf_libs/unicode/cpaf_u16string_utils.cpp:307-373 | simplifying is idempotent in both forms |
| Whitespace.SimplifiedIsCanonical | cpaf_libs/unicode/cpaf_u16string_utils.cpp:307-338 | simplifying leaves a text as it is exactly when its only white space is single spaces between other characters |
| Whitespace.Skip | cpaf_libs/unicode/cpaf_u16string_utils.cpp:670-749 | moves to the next kept character and tells whether it moved |
| Whitespace.SkipsIsNotKept | cpaf_libs/unicode/cpaf_u16string_utils.cpp:715-749 | the sorted binary search and the linear search skip the same characters |
| Whitespace.WhiteSpaceIs | cpaf_libs/unicode/cpaf_unicode_chars.hpp:134-137 | white space is the space and the characters from tab to carriage return |
| Whitespace.BinarySearchFinds | cpaf_libs/unicode/cpaf_u16string_utils.cpp:724-728 | halving a sorted vector finds exactly its members |
| Whitespace.WordsAreWords | cpaf_libs/unicode/cpaf_u16string_utils.cpp:307-338 | every run is a non-empty stretch of kept characters |
| NameId.ReplaceTables | cpaf_libs/unicode/cpaf_u16string_utils.cpp:277-285 | one replacement pass per table row, in order, up to the shorter table |
| NameId.RowsAreSubst | cpaf_libs/unicode/cpaf_u16string_utils.cpp:277-285 | replacing row after row equals substituting every character once, when no replacement contains a character of a later row |
| NameId.TablesSeparate | cpaf_libs/unicode/cpaf_u16string_utils.cpp:41-53 | the id tables meet that condition |
| NameId.NameToId | cpaf_libs/unicode/cpaf_u16string_utils.cpp:617-626 | the simplified name with every table character substituted, lower-cased unless the case is kept |
| NameId.IdIgnoresSpacing | cpaf_libs/unicode/cpaf_u16string_utils.cpp:617-626 | the spacing of a name does not show in its id |
| NameId.IdsOfTable | cpaf_libs/unicode/cpaf_u16string_utils.cpp:41-53 | the id of each character of the table |
| NameId.IdsAreInjective | cpaf_libs/unicode/cpaf_u16string_utils.cpp:617-626 | different simplified names free of ~ and - have different ids |
| NameId.IdTellsNameExactly | cpaf_libs/unicode/cpaf_u16string_utils.cpp:617-626 | no other simplified name has the id of a simplified name exactly when that name has no table character, no dash but at its ends, and no id written out in it |
| NameId.DashCollides | cpaf_libs/unicode/cpaf_u16string_utils.cpp:41-53 | a dash collides with a space |
| NameId.TildeCollides | cpaf_libs/unicode/cpaf_u16string_utils.cpp:41-53 | an id written out collides with the character it stands for |

## Left out

* The GUI, audio, video, curl, Elasticsearch and zlib parts: calls into foreign libraries around little logic of their own.
* The libtorrent session, threads, sleeps and clocks: replaced by the environment described above.
* TorrentFile.File.Read: does not cover an offset before or past the end of the torrent, where what the library's `map_file` answers is not part of this model.
* FileSlurp.ToString8: does not cover a reserve size of 0, which an empty or non-file compressed resource gives: the read size is then -1.
* FileSlurp.ReadLoopEnds: does not cover the read size -1 of that case, where what a read does is up to the stream library.
* `set_piece_downloaded`, the current streaming range, the single-shot `try_get_pieces_data` and the debug printing of the cache.
* Writing compressed output to a file instead of memory, a failing `malloc` or `fopen`, and the integer-array form of the printed data.
* The concrete hash mixing of the compressor: any function is covered.
* Big-endian hosts: the printer reads words through a pointer cast, modelled as little-endian.
* `sum_hex` of MD5, which streams raw characters instead of hex digits.
* Size overflow in the growable array, its move and copy operations, self-append, and its equality, which returns the raw `memcmp`.
* DynamicArray.DynamicArray.Reserve: does not cover a capacity below the size, where the code copies past the end of the new buffer.
* DynamicArray.DynamicArray.Append: does not cover a source inside the array itself, which growth would move.
* Url.RoundTrip: does not cover `mailto`, unknown or missing protocols, and parameters without a path; the parser loses or misplaces parts there.
* The value of the file flag of a URL built from an empty text, which the code leaves uninitialised.
* NameId.NameToId: does not model the library's case conversion, which is a parameter.
* The remaining tables and title forms of the u16string functions, and surrogate code units.
* Piece hashes and the asynchronous handlers of the in-memory disk interface.
