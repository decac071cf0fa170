/** The byte-table encoder (test/pack.c:71-83): each stream byte becomes one
    decimal literal, a comment with the printable rendering of the last 12
    bytes is written before every 13th, 25th, ... byte, and the table ends
    with a `0` literal and a comment holding the remaining bytes. The text is
    modelled as a token stream; spacing and padding are not modelled. */
module ByteTable {
  import opened Types
  import Decimal

  /** `sizeof(ascii)`: the width of one comment. */
  const Width: nat := 12

  /** One item of a table body: a numeric literal or a `// ...` comment. */
  datatype Token = Lit(value: Byte) | Comment(text: string)

  /** A byte table `v<id>[] = { ... }`. */
  datatype Table = Table(id: nat, body: seq<Token>)

  /** The identifier of the table declared for argument position `i`. */
  function TableName(i: nat): string {
    "v" + Decimal.Show(i)
  }

  lemma TableNamesDistinct(i: nat, j: nat)
    ensures TableName(i) == TableName(j) <==> i == j
  {
    if TableName(i) == TableName(j) {
      assert Decimal.Show(i) == TableName(i)[1..];
      assert Decimal.Show(j) == TableName(j)[1..];
      Decimal.ShowInjective(i, j);
    }
  }

  /** The comment character for one byte: the byte itself when it is
      printable ASCII other than a backslash, otherwise a dot. */
  function Shown(b: Byte): (c: char)
    ensures ' ' <= c <= '~' && c != '\\'
    ensures c == b as char <==> ' ' <= b as char <= '~' && b as char != '\\'
    ensures c != b as char ==> c == '.'
  {
    if ' ' as int <= b <= '~' as int && b != '\\' as int then b as char else '.'
  }

  function Ascii(s: Bytes): (r: string)
    ensures |r| == |s|
    ensures forall k {:trigger r[k]} :: 0 <= k < |s| ==> r[k] == Shown(s[k])
  {
    seq(|s|, k requires 0 <= k < |s| => Shown(s[k]))
  }

  function Lits(s: Bytes): (r: seq<Token>)
    ensures |r| == |s|
    ensures forall k {:trigger r[k]} :: 0 <= k < |s| ==> r[k] == Lit(s[k])
  {
    seq(|s|, k requires 0 <= k < |s| => Lit(s[k]))
  }

  /** Reference definition of a table body: full 12-byte chunks each
      followed by their comment, then the last (possibly short or empty)
      chunk, the terminating zero and the comment for that last chunk. */
  function Encode(s: Bytes): seq<Token>
    decreases |s|
  {
    if |s| <= Width then Lits(s) + [Lit(0), Comment(Ascii(s))]
    else Lits(s[..Width]) + [Comment(Ascii(s[..Width]))] + Encode(s[Width..])
  }

  /** The numeric literals of a body, in order. */
  function Elements(ts: seq<Token>): seq<Byte>
    decreases |ts|
  {
    if ts == [] then []
    else (if ts[0].Lit? then [ts[0].value] else []) + Elements(ts[1..])
  }

  /** The comment texts of a body, in order. */
  function Comments(ts: seq<Token>): seq<string>
    decreases |ts|
  {
    if ts == [] then []
    else (if ts[0].Comment? then [ts[0].text] else []) + Comments(ts[1..])
  }

  function Concat(ss: seq<string>): string
    decreases |ss|
  {
    if ss == [] then [] else ss[0] + Concat(ss[1..])
  }

  lemma {:induction false} ElementsAppend(a: seq<Token>, b: seq<Token>)
    ensures Elements(a + b) == Elements(a) + Elements(b)
    decreases |a|
  {
    if a == [] {
      assert a + b == b;
    } else {
      assert (a + b)[0] == a[0];
      assert (a + b)[1..] == a[1..] + b;
      ElementsAppend(a[1..], b);
    }
  }

  lemma {:induction false} CommentsAppend(a: seq<Token>, b: seq<Token>)
    ensures Comments(a + b) == Comments(a) + Comments(b)
    decreases |a|
  {
    if a == [] {
      assert a + b == b;
    } else {
      assert (a + b)[0] == a[0];
      assert (a + b)[1..] == a[1..] + b;
      CommentsAppend(a[1..], b);
    }
  }

  lemma {:induction false} LitsContents(s: Bytes)
    ensures Elements(Lits(s)) == s
    ensures Comments(Lits(s)) == []
    decreases |s|
  {
    if s != [] {
      assert Lits(s)[1..] == Lits(s[1..]);
      LitsContents(s[1..]);
    }
  }

  /** The table holds exactly the stream bytes in order and then one zero:
      its length is n + 1 and its last element is 0. */
  lemma {:induction false} EncodeElements(s: Bytes)
    ensures Elements(Encode(s)) == s + [0]
    ensures |Elements(Encode(s))| == |s| + 1
    ensures Elements(Encode(s))[|s|] == 0
    decreases |s|
  {
    if |s| <= Width {
      ElementsAppend(Lits(s), [Lit(0), Comment(Ascii(s))]);
      LitsContents(s);
      assert [Lit(0), Comment(Ascii(s))][1..] == [Comment(Ascii(s))];
      assert Elements([Comment(Ascii(s))]) == [];
      assert Elements([Lit(0), Comment(Ascii(s))]) == [0];
    } else {
      var head := Lits(s[..Width]) + [Comment(Ascii(s[..Width]))];
      ElementsAppend(head, Encode(s[Width..]));
      ElementsAppend(Lits(s[..Width]), [Comment(Ascii(s[..Width]))]);
      LitsContents(s[..Width]);
      EncodeElements(s[Width..]);
      assert s[..Width] + (s[Width..] + [0]) == s + [0];
    }
  }

  /** Number of comments flushed in the middle of a stream of n bytes. */
  function MidComments(n: nat): nat {
    if n == 0 then 0 else (n - 1) / Width
  }

  /** Chunking: a stream of n > 0 bytes gets (n-1)/12 full 12-character
      comments followed by one final comment of 1..12 characters; an empty
      stream gets only an empty final comment. The comments, read in order,
      spell the printable rendering of the whole stream. */
  lemma {:induction false} EncodeComments(s: Bytes)
    ensures var cs := Comments(Encode(s));
      && |cs| == MidComments(|s|) + 1
      && (forall k :: 0 <= k < |cs| - 1 ==> |cs[k]| == Width)
      && |cs[|cs| - 1]| == |s| - Width * MidComments(|s|)
      && (|s| > 0 ==> 1 <= |cs[|cs| - 1]| <= Width)
      && Concat(cs) == Ascii(s)
    decreases |s|
  {
    var cs := Comments(Encode(s));
    if |s| <= Width {
      CommentsAppend(Lits(s), [Lit(0), Comment(Ascii(s))]);
      LitsContents(s);
      assert [Lit(0), Comment(Ascii(s))][1..] == [Comment(Ascii(s))];
      assert Comments([Comment(Ascii(s))]) == [Ascii(s)];
      assert Comments([Lit(0), Comment(Ascii(s))]) == [Ascii(s)];
      assert cs == [Ascii(s)];
      assert Concat(cs) == Ascii(s) + Concat([]);
    } else {
      var head := Lits(s[..Width]) + [Comment(Ascii(s[..Width]))];
      CommentsAppend(head, Encode(s[Width..]));
      CommentsAppend(Lits(s[..Width]), [Comment(Ascii(s[..Width]))]);
      LitsContents(s[..Width]);
      assert Comments([Comment(Ascii(s[..Width]))]) == [Ascii(s[..Width])];
      EncodeComments(s[Width..]);
      var rest := Comments(Encode(s[Width..]));
      assert cs == [Ascii(s[..Width])] + rest;
      assert cs[1..] == rest;
      assert MidComments(|s|) == MidComments(|s| - Width) + 1;
      assert Ascii(s) == Ascii(s[..Width]) + Ascii(s[Width..]);
    }
  }

  lemma {:induction false} EncodeLength(s: Bytes)
    ensures |Encode(s)| == |s| + MidComments(|s|) + 2
    ensures Encode(s)[|Encode(s)| - 2] == Lit(0)
    ensures Encode(s)[|Encode(s)| - 1] == Comment(Ascii(s[Width * MidComments(|s|)..]))
    decreases |s|
  {
    if |s| > Width {
      var s' := s[Width..];
      EncodeLength(s');
      assert MidComments(|s|) == MidComments(|s'|) + 1;
      assert s[Width * MidComments(|s|)..] == s'[Width * MidComments(|s'|)..];
    }
  }

  lemma DivStep(m: nat)
    requires m >= Width
    ensures m / Width == (m - Width) / Width + 1
  {
  }

  lemma {:induction false} EncodeLitAt(s: Bytes, m: nat)
    requires m < |s|
    ensures m + m / Width < |Encode(s)|
    ensures Encode(s)[m + m / Width] == Lit(s[m])
    decreases |s|
  {
    EncodeLength(s);
    if |s| > Width && m >= Width {
      var m' := m - Width;
      var head := Lits(s[..Width]) + [Comment(Ascii(s[..Width]))];
      assert Encode(s) == head + Encode(s[Width..]);
      EncodeLitAt(s[Width..], m');
      DivStep(m);
      assert m + m / Width == |head| + (m' + m' / Width);
    } else {
      assert m / Width == 0;
      assert Encode(s)[m] == Lits(if |s| <= Width then s else s[..Width])[m];
    }
  }

  lemma {:induction false} EncodeCommentAt(s: Bytes, c: nat)
    requires c < MidComments(|s|)
    ensures Width * c + Width + c < |Encode(s)|
    ensures Encode(s)[Width * c + Width + c] == Comment(Ascii(s[Width * c .. Width * c + Width]))
    decreases |s|
  {
    EncodeLength(s);
    var s' := s[Width..];
    assert MidComments(|s|) == MidComments(|s'|) + 1;
    if c > 0 {
      var c' := c - 1;
      EncodeCommentAt(s', c');
      assert Width * c + Width + c == (Width * c' + Width + c') + Width + 1;
      assert s[Width * c .. Width * c + Width] == s'[Width * c' .. Width * c' + Width];
    }
  }

  /** Layout: byte m of the stream sits at token position m + m/12; each
      full chunk's comment follows its twelfth literal; the zero literal and
      the final comment close the table. */
  lemma EncodeLayout(s: Bytes)
    ensures var ts := Encode(s);
      && |ts| == |s| + MidComments(|s|) + 2
      && (forall m :: 0 <= m < |s| ==> ts[m + m / Width] == Lit(s[m]))
      && (forall c :: 0 <= c < MidComments(|s|) ==>
            ts[Width * c + Width + c] == Comment(Ascii(s[Width * c .. Width * c + Width])))
      && ts[|ts| - 2] == Lit(0)
      && ts[|ts| - 1] == Comment(Ascii(s[Width * MidComments(|s|)..]))
  {
    EncodeLength(s);
    forall m | 0 <= m < |s|
      ensures Encode(s)[m + m / Width] == Lit(s[m])
    {
      EncodeLitAt(s, m);
    }
    forall c | 0 <= c < MidComments(|s|)
      ensures Encode(s)[Width * c + Width + c] == Comment(Ascii(s[Width * c .. Width * c + Width]))
    {
      EncodeCommentAt(s, c);
    }
  }

  /** The tokens of the whole 12-byte chunks at the front of `t`, each
      closed by its comment. */
  function Body(t: Bytes): seq<Token>
    decreases |t|
  {
    if |t| < Width then []
    else Lits(t[..Width]) + [Comment(Ascii(t[..Width]))] + Body(t[Width..])
  }

  lemma {:induction false} BodyAppend(t: Bytes, c: Bytes)
    requires |t| % Width == 0 && |c| == Width
    ensures Body(t + c) == Body(t) + Lits(c) + [Comment(Ascii(c))]
    decreases |t|
  {
    if t == [] {
      assert (t + c)[..Width] == c;
      assert (t + c)[Width..] == [];
    } else {
      assert (t + c)[..Width] == t[..Width];
      assert (t + c)[Width..] == t[Width..] + c;
      BodyAppend(t[Width..], c);
    }
  }

  /** The encoder's state after reading the first m bytes of the last,
      still open chunk `s[m..]` completes to the reference body. */
  lemma {:induction false} EncodeSplit(s: Bytes, m: nat)
    requires m <= |s| && m % Width == 0 && |s| - m <= Width
    requires |s| > m || |s| == 0
    ensures Encode(s) == Body(s[..m]) + Lits(s[m..]) + [Lit(0), Comment(Ascii(s[m..]))]
    decreases m
  {
    if m > 0 {
      var head := Lits(s[..Width]) + [Comment(Ascii(s[..Width]))];
      EncodeSplit(s[Width..], m - Width);
      assert Encode(s) == head + Encode(s[Width..]);
      assert s[..m][..Width] == s[..Width];
      assert s[..m][Width..] == s[Width..][..m - Width];
      assert Body(s[..m]) == head + Body(s[Width..][..m - Width]);
      assert s[Width..][m - Width..] == s[m..];
    }
  }

  lemma WholeChunks(c: nat)
    ensures (Width * c) % Width == 0
  {
  }

  /** The tokens of the first `c` whole chunks of `s`, each closed by its
      comment, indexed from the front of the stream. */
  ghost function Chunks(s: Bytes, c: nat): seq<Token>
    requires Width * c <= |s|
  {
    if c == 0 then []
    else Chunks(s, c - 1) + Lits(s[Width * (c - 1)..Width * c]) + [Comment(Ascii(s[Width * (c - 1)..Width * c]))]
  }

  lemma {:induction false} ChunksBody(s: Bytes, c: nat)
    requires Width * c <= |s|
    ensures Chunks(s, c) == Body(s[..Width * c])
  {
    if c > 0 {
      ChunksBody(s, c - 1);
      WholeChunks(c - 1);
      BodyAppend(s[..Width * (c - 1)], s[Width * (c - 1)..Width * c]);
      assert s[..Width * (c - 1)] + s[Width * (c - 1)..Width * c] == s[..Width * c];
    }
  }

  /** Closing the stream after its last, open chunk. */
  lemma FinishStep(s: Bytes, c: nat)
    requires Width * c <= |s| <= Width * c + Width
    requires |s| > Width * c || |s| == 0
    ensures Chunks(s, c) + Lits(s[Width * c..|s|]) + [Lit(0), Comment(Ascii(s[Width * c..|s|]))] == Encode(s)
  {
    ChunksBody(s, c);
    WholeChunks(c);
    EncodeSplit(s, Width * c);
    assert s[Width * c..|s|] == s[Width * c..];
  }

  /** The comment written just before byte k: the rendering of the chunk
      that ends there, when byte k opens a new chunk. */
  ghost function FlushBefore(s: Bytes, k: nat): seq<Token>
    requires k <= |s|
  {
    if k > 0 && k % Width == 0 then [Comment(Ascii(s[k - Width..k]))] else []
  }

  /** The tokens written once the first k bytes have been read, one byte
      at a time. */
  ghost function Emitted(s: Bytes, k: nat): seq<Token>
    requires k <= |s|
    decreases k
  {
    if k == 0 then [] else Emitted(s, k - 1) + FlushBefore(s, k - 1) + [Lit(s[k - 1])]
  }

  /** `j` bytes of the open chunk have been read, after `c` whole chunks. */
  predicate Position(k: nat, j: nat, c: nat) {
    j <= k && j <= Width && (k > 0 ==> j > 0) && k - j == Width * c
  }

  /** Byte k opens a new chunk exactly when the open one is full. */
  lemma FlushAt(s: Bytes, k: nat, j: nat, c: nat)
    requires k <= |s| && Position(k, j, c)
    ensures FlushBefore(s, k) == if j == Width then [Comment(Ascii(s[k - Width..k]))] else []
  {
    if j == Width {
      assert k == Width * (c + 1);
    } else if k > 0 {
      assert k == Width * c + j && 0 < j < Width;
    }
  }

  /** Reading the byte that opens chunk `c` closes chunk `c - 1`. */
  lemma CloseChunk(s: Bytes, k: nat, c: nat)
    requires 0 < c && k == Width * c + 1 && k <= |s|
    requires Emitted(s, k - 1) == Chunks(s, c - 1) + Lits(s[Width * (c - 1)..k - 1])
    ensures Emitted(s, k) == Chunks(s, c) + Lits(s[Width * c..k])
  {
    FlushAt(s, k - 1, Width, c - 1);
    assert s[Width * c..k] == [s[k - 1]];
  }

  /** Reading a byte inside the open chunk `c` adds its literal. */
  lemma GrowChunk(s: Bytes, k: nat, c: nat)
    requires Width * c < k <= Width * c + Width && k <= |s| && (k - 1 > Width * c || c == 0)
    requires Emitted(s, k - 1) == Chunks(s, c) + Lits(s[Width * c..k - 1])
    ensures Emitted(s, k) == Chunks(s, c) + Lits(s[Width * c..k])
  {
    FlushAt(s, k - 1, k - 1 - Width * c, c);
    assert s[Width * c..k] == s[Width * c..k - 1] + [s[k - 1]];
  }

  /** The state after k bytes: the whole chunks with their comments, then
      the literals of the open chunk. */
  lemma {:induction false} EmittedSplit(s: Bytes, k: nat, j: nat, c: nat)
    requires k <= |s| && Position(k, j, c)
    ensures Emitted(s, k) == Chunks(s, c) + Lits(s[Width * c..k])
    decreases k
  {
    if k == 0 {
      assert c == 0;
      assert Emitted(s, k) == [] == Lits(s[Width * c..k]);
    } else {
      if j == 1 && c > 0 {
        assert Width * (c - 1) == Width * c - Width;
        EmittedSplit(s, k - 1, Width, c - 1);
        CloseChunk(s, k, c);
      } else {
        EmittedSplit(s, k - 1, j - 1, c);
        GrowChunk(s, k, c);
      }
    }
  }

  /** One step of the loop, on the token stream. */
  lemma EmittedStep(s: Bytes, k: nat, j: nat, c: nat)
    requires k < |s| && Position(k, j, c)
    ensures Emitted(s, k + 1)
         == if j == Width then Emitted(s, k) + [Comment(Ascii(s[k - Width..k]))] + [Lit(s[k])]
            else Emitted(s, k) + [Lit(s[k])]
  {
    FlushAt(s, k, j, c);
    if j != Width {
      assert Emitted(s, k) + [] == Emitted(s, k);
    }
  }

  /** The `ascii` buffer's first `j` slots render the open chunk
      `s[a..k]`, so its prefix is that chunk's comment. */
  lemma Rendered(s: Bytes, a: nat, j: nat, k: nat, ascii: string)
    requires a + j == k <= |s| && j <= |ascii|
    requires forall i :: 0 <= i < j ==> ascii[i] == Shown(s[a + i])
    ensures ascii[..j] == Ascii(s[a..k])
  {
  }

  /** The end of the stream: the zero literal and the open chunk's comment
      complete the table. */
  lemma StreamDone(s: Bytes, j: nat, c: nat)
    requires Position(|s|, j, c)
    ensures Emitted(s, |s|) + [Lit(0), Comment(Ascii(s[Width * c..|s|]))] == Encode(s)
  {
    EmittedSplit(s, |s|, j, c);
    FinishStep(s, c);
  }

  /** The loop's state after `k` bytes: `j` of them in the open chunk
      after `c` whole ones, the `ascii` buffer rendering the open chunk,
      and `out` the tokens written so far. */
  ghost predicate Streaming(s: Bytes, k: nat, j: nat, c: nat, ascii: string, out: seq<Token>) {
    k <= |s| && Position(k, j, c) && |ascii| == Width
    && (forall i :: 0 <= i < j ==> ascii[i] == Shown(s[k - j + i]))
    && out == Emitted(s, k)
  }

  /** A turn of the loop on a full chunk: flush its comment, then render
      and write byte k as the first of the next chunk. */
  lemma StreamFlush(s: Bytes, k: nat, c: nat, ascii: string, out: seq<Token>)
    requires Streaming(s, k, Width, c, ascii, out) && k < |s|
    ensures Streaming(s, k + 1, 1, c + 1, ascii[0 := Shown(s[k])], out + [Comment(ascii[..Width])] + [Lit(s[k])])
  {
    EmittedStep(s, k, Width, c);
    Rendered(s, k - Width, Width, k, ascii);
    assert Width * (c + 1) == Width * c + Width;
  }

  /** A turn of the loop inside a chunk: render and write byte k. */
  lemma StreamGrow(s: Bytes, k: nat, j: nat, c: nat, ascii: string, out: seq<Token>)
    requires Streaming(s, k, j, c, ascii, out) && k < |s| && j < Width
    ensures Streaming(s, k + 1, j + 1, c, ascii[j := Shown(s[k])], out + [Lit(s[k])])
  {
    EmittedStep(s, k, j, c);
  }

  /** The generator's loop: `j` counts the bytes of the open chunk and
      `ascii` holds their rendering; a full chunk's comment is flushed when
      the next byte arrives. */
  method EncodeStream(s: Bytes) returns (out: seq<Token>)
    ensures out == Encode(s)
  {
    var ascii: seq<char> := seq(Width, _ => '.');
    var j: nat := 0;
    var k: nat := 0;
    ghost var chunks: nat := 0;
    out := [];
    while k < |s|
      invariant Streaming(s, k, j, chunks, ascii, out)
    {
      var ch := s[k];
      if j == Width {
        StreamFlush(s, k, chunks, ascii, out);
      } else {
        StreamGrow(s, k, j, chunks, ascii, out);
      }
      if j == Width {
        out := out + [Comment(ascii[..j])];
        j := 0;
        chunks := chunks + 1;
      }
      ascii := ascii[j := Shown(ch)];
      out := out + [Lit(ch)];
      j := j + 1;
      k := k + 1;
    }
    StreamDone(s, j, chunks);
    Rendered(s, Width * chunks, j, |s|, ascii);
    out := out + [Lit(0), Comment(ascii[..j])];
  }
}
