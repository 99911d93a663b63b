/** Byte orders of 16-, 24- and 32-bit fields as the firmware lays them out in its frames:
    big-endian where a value travels most significant byte first (SD command arguments, the
    ISD1200 indices and addresses), little-endian where the RP2040 stores a word in memory
    (SPI register values, NAND page words). */
module ByteOrder {

  // ---------------------------------------------------------------------------------
  // 32-bit words
  // ---------------------------------------------------------------------------------

  /** The four bytes of `w`, most significant first: the order bits travel on a bus. */
  function BeBytes(w: bv32): (s: seq<bv8>)
    ensures |s| == 4
  {
    [((w >> 24) & 0xFF) as bv8, ((w >> 16) & 0xFF) as bv8, ((w >> 8) & 0xFF) as bv8, (w & 0xFF) as bv8]
  }

  /** The word whose big-endian bytes are `s`. */
  function BeWord(s: seq<bv8>): bv32
    requires |s| == 4
  {
    ((s[0] as bv32) << 24) | ((s[1] as bv32) << 16) | ((s[2] as bv32) << 8) | (s[3] as bv32)
  }

  /** The four bytes of `w` as the little-endian RP2040 stores them. */
  function LeBytes(w: bv32): (s: seq<bv8>)
    ensures |s| == 4
  {
    var b := BeBytes(w);
    [b[3], b[2], b[1], b[0]]
  }

  /** The word a little-endian load `*(uint32_t *)p` reads from the four bytes `s`. */
  function LeWord(s: seq<bv8>): bv32
    requires |s| == 4
  {
    BeWord([s[3], s[2], s[1], s[0]])
  }

  lemma BeWordOfBytes(w: bv32)
    ensures BeWord(BeBytes(w)) == w
  {
  }

  lemma BeBytesOfWord(s: seq<bv8>)
    requires |s| == 4
    ensures BeBytes(BeWord(s)) == s
  {
  }

  /** A little-endian store followed by a load gives the word back, and conversely. */
  lemma LeRoundTrip(w: bv32, s: seq<bv8>)
    requires |s| == 4
    ensures LeWord(LeBytes(w)) == w
    ensures LeBytes(LeWord(s)) == s
  {
    BeWordOfBytes(w);
    BeBytesOfWord([s[3], s[2], s[1], s[0]]);
  }

  /** `__builtin_bswap32`: its little-endian bytes are the big-endian bytes of its argument. */
  function Bswap(x: bv32): (y: bv32)
    ensures LeBytes(y) == BeBytes(x)
  {
    ((x & 0xFF) << 24) | (((x >> 8) & 0xFF) << 16) | (((x >> 16) & 0xFF) << 8) | ((x >> 24) & 0xFF)
  }

  // ---------------------------------------------------------------------------------
  // 16-bit values
  // ---------------------------------------------------------------------------------

  /** The two bytes of `h`, most significant first. */
  function Be16(h: bv16): (s: seq<bv8>)
    ensures |s| == 2
  {
    [(h >> 8) as bv8, (h & 0xFF) as bv8]
  }

  /** The 16-bit value whose big-endian bytes are `s`. */
  function Be16Value(s: seq<bv8>): bv16
    requires |s| == 2
  {
    ((s[0] as bv16) << 8) | (s[1] as bv16)
  }

  /** The value a little-endian 16-bit load reads from two bytes. */
  function Le16Value(s: seq<bv8>): bv16
    requires |s| == 2
  {
    ((s[1] as bv16) << 8) | (s[0] as bv16)
  }

  /** `*(uint16_t *)p = __builtin_bswap16(h)` on the little-endian RP2040 leaves the bytes of `h`
      most significant first; the bytes decode back to `h`. */
  lemma Be16RoundTrip(h: bv16, s: seq<bv8>)
    requires |s| == 2
    ensures Be16Value(Be16(h)) == h
    ensures Be16(Be16Value(s)) == s
  {
  }

  // ---------------------------------------------------------------------------------
  // Streams of little-endian words
  // ---------------------------------------------------------------------------------

  /** The bytes left in memory by storing `ws` word after word. */
  function LeStream(ws: seq<bv32>): (s: seq<bv8>)
    ensures |s| == 4 * |ws|
    decreases |ws|
  {
    if ws == [] then [] else LeStream(ws[..|ws| - 1]) + LeBytes(ws[|ws| - 1])
  }

  /** The words read by loading `s` four bytes at a time. */
  function LeWords(s: seq<bv8>): (ws: seq<bv32>)
    requires |s| % 4 == 0
    ensures 4 * |ws| == |s|
    decreases |s|
  {
    if s == [] then [] else LeWords(s[..|s| - 4]) + [LeWord(s[|s| - 4..])]
  }

  /** Loading one more word at the end of a buffer. */
  lemma LeWordsSnoc(s: seq<bv8>, t: seq<bv8>)
    requires |s| % 4 == 0 && |t| == 4
    ensures LeWords(s + t) == LeWords(s) + [LeWord(t)]
  {
    assert (s + t)[..|s + t| - 4] == s;
    assert (s + t)[|s + t| - 4..] == t;
  }

  /** Word `i` of a stored stream sits at bytes `4i .. 4i+4`. */
  lemma {:induction false} LeStreamAt(ws: seq<bv32>, i: nat)
    requires i < |ws|
    ensures LeStream(ws)[4 * i .. 4 * i + 4] == LeBytes(ws[i])
    decreases |ws|
  {
    var last := |ws| - 1;
    if i < last {
      LeStreamAt(ws[..last], i);
      assert ws[..last][i] == ws[i];
      assert LeStream(ws)[..4 * last] == LeStream(ws[..last]);
    } else {
      assert LeStream(ws)[4 * last..] == LeBytes(ws[last]);
    }
  }

  /** Storing words and loading them back gives the same words. */
  lemma {:induction false} LeWordsOfStream(ws: seq<bv32>)
    ensures LeWords(LeStream(ws)) == ws
    decreases |ws|
  {
    if ws != [] {
      var last := |ws| - 1;
      assert ws == ws[..last] + [ws[last]];
      LeWordsOfStream(ws[..last]);
      LeWordsOfStreamSnoc(ws[..last], ws[last]);
    }
  }

  /** One more word: if `front` survives storing and loading, so does `front + [w]`. */
  lemma LeWordsOfStreamSnoc(front: seq<bv32>, w: bv32)
    requires LeWords(LeStream(front)) == front
    ensures LeWords(LeStream(front + [w])) == front + [w]
  {
    var ws := front + [w];
    assert ws[..|ws| - 1] == front;
    LeWordsSnoc(LeStream(front), LeBytes(w));
    LeRoundTrip(w, LeBytes(w));
  }

  /** Loading a byte buffer as words and storing the words gives the same bytes. */
  lemma {:induction false} LeStreamOfWords(s: seq<bv8>)
    requires |s| % 4 == 0
    ensures LeStream(LeWords(s)) == s
    decreases |s|
  {
    if s != [] {
      var front, tail := s[..|s| - 4], s[|s| - 4..];
      assert front + tail == s;
      LeStreamOfWords(front);
      LeStreamOfWordsSnoc(front, tail);
    }
  }

  /** One more word: if `front` survives loading and storing, so does `front + tail`. */
  lemma LeStreamOfWordsSnoc(front: seq<bv8>, tail: seq<bv8>)
    requires |front| % 4 == 0 && |tail| == 4
    requires LeStream(LeWords(front)) == front
    ensures LeStream(LeWords(front + tail)) == front + tail
  {
    LeWordsSnoc(front, tail);
    var ws := LeWords(front) + [LeWord(tail)];
    assert ws[..|ws| - 1] == LeWords(front);
    LeRoundTrip(0, tail);
  }

  /** The words of a buffer split at a word boundary are the words of its two parts. */
  lemma {:induction false} LeWordsAppend(a: seq<bv8>, b: seq<bv8>)
    requires |a| % 4 == 0 && |b| % 4 == 0
    ensures LeWords(a + b) == LeWords(a) + LeWords(b)
    decreases |b|
  {
    if b != [] {
      var c := b[..|b| - 4];
      assert (a + b)[..|a + b| - 4] == a + c;
      assert (a + b)[|a + b| - 4..] == b[|b| - 4..];
      LeWordsAppend(a, c);
    } else {
      assert a + b == a;
    }
  }
}
