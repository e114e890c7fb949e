/** The sliding word window behind `RAGSystem.chunk_text` (rag_utils.py):
    a page's words are cut into windows of `chunkSize` words that start
    every `chunkSize - overlap` words, each window is joined with single
    spaces, and a joined window is kept only when it is longer than 50
    characters once stripped. */
module Chunking {
  import opened Wrappers
  import opened Text

  /** A chunk is kept only when its stripped text is longer than this. */
  const MinChunkChars: nat := 50

  /** The windows visited by `for i in range(start, len(words), step)`,
      each `words[i:i + size]`. */
  function WindowsFrom(words: seq<string>, size: nat, step: nat, start: nat): seq<seq<string>>
    requires step > 0
    decreases |words| - start
  {
    if start >= |words| then []
    else [words[start..Min(start + size, |words|)]] + WindowsFrom(words, size, step, start + step)
  }

  function Windows(words: seq<string>, size: nat, step: nat): seq<seq<string>>
    requires step > 0
  {
    WindowsFrom(words, size, step, 0)
  }

  /** The keep test of chunk_text: the joined window, stripped, is longer
      than 50 characters. */
  predicate Keeps(window: seq<string>) {
    |Strip(Join(" ", window))| > MinChunkChars
  }

  /** The joined windows that pass the keep test, in window order. */
  function KeptChunks(ws: seq<seq<string>>): seq<string>
    decreases |ws|
  {
    if ws == [] then []
    else (if Keeps(ws[0]) then [Join(" ", ws[0])] else []) + KeptChunks(ws[1..])
  }

  /** What `chunk_text(text, chunk_size, overlap)` returns. */
  function ChunkTexts(text: string, chunkSize: nat, overlap: nat): seq<string>
    requires overlap < chunkSize
  {
    KeptChunks(Windows(Words(text), chunkSize, chunkSize - overlap))
  }

  /** One step of the chunking loop: the window at `start` is kept or
      dropped, then the loop goes on from `next`, `step` words further. */
  lemma KeptChunksStep(words: seq<string>, size: nat, step: nat, start: nat, next: nat)
    requires step > 0 && start < |words| && next == start + step
    ensures var w := words[start..Min(start + size, |words|)];
      KeptChunks(WindowsFrom(words, size, step, start))
        == (if Keeps(w) then [Join(" ", w)] else []) + KeptChunks(WindowsFrom(words, size, step, next))
  {
    var w := words[start..Min(start + size, |words|)];
    var rest := WindowsFrom(words, size, step, next);
    assert WindowsFrom(words, size, step, start) == [w] + rest;
    assert ([w] + rest)[1..] == rest;
  }

  /** The loop of chunk_text keeps `done + KeptChunks(rest of windows)`
      fixed: one step appends the window's text when it passes the keep
      test and moves on `step` words. */
  lemma ChunkLoopStep(words: seq<string>, size: nat, step: nat, start: nat, next: nat,
                      done: seq<string>, chunk: string, kept: seq<string>)
    requires step > 0 && start < |words| && next == start + step
    requires chunk == Join(" ", words[start..Min(start + size, |words|)])
    requires kept == if |Strip(chunk)| > MinChunkChars then done + [chunk] else done
    ensures done + KeptChunks(WindowsFrom(words, size, step, start))
         == kept + KeptChunks(WindowsFrom(words, size, step, next))
  {
    var w := words[start..Min(start + size, |words|)];
    KeptChunksStep(words, size, step, start, next);
    var rest := KeptChunks(WindowsFrom(words, size, step, next));
    assert Keeps(w) == (|Strip(chunk)| > MinChunkChars);
    AppendKept(done, chunk, Keeps(w), rest, kept);
  }

  lemma AppendKept<T>(done: seq<T>, x: T, keep: bool, rest: seq<T>, kept: seq<T>)
    requires kept == if keep then done + [x] else done
    ensures done + ((if keep then [x] else []) + rest) == kept + rest
  {
    if keep {
      assert done + ([x] + rest) == (done + [x]) + rest;
    } else {
      assert [] + rest == rest;
    }
  }

  /** Past the last word there are no windows left. */
  lemma ChunkLoopDone(words: seq<string>, size: nat, step: nat, start: nat, done: seq<string>)
    requires step > 0 && start >= |words|
    ensures done + KeptChunks(WindowsFrom(words, size, step, start)) == done
  {
  }

  // ---------------------------------------------------------------------
  // Shape of the windows
  // ---------------------------------------------------------------------

  lemma {:induction false} WindowAt(words: seq<string>, size: nat, step: nat, start: nat, k: nat)
    requires step > 0
    requires k < |WindowsFrom(words, size, step, start)|
    ensures start + k * step < |words|
    ensures WindowsFrom(words, size, step, start)[k]
         == words[start + k * step..Min(start + k * step + size, |words|)]
    decreases k
  {
    if k > 0 {
      WindowAt(words, size, step, start + step, k - 1);
      assert start + k * step == (start + step) + (k - 1) * step;
    }
  }

  lemma {:induction false} WindowCountFrom(words: seq<string>, size: nat, step: nat, start: nat)
    requires step > 0
    ensures var c := |WindowsFrom(words, size, step, start)|;
      if start >= |words| then c == 0
      else (c - 1) * step < |words| - start <= c * step
    decreases |words| - start
  {
    if start < |words| {
      WindowCountFrom(words, size, step, start + step);
      var c := |WindowsFrom(words, size, step, start + step)|;
      assert (c + 1 - 1) * step == c * step;
      assert (c + 1) * step == c * step + step;
    }
  }

  /** Window `k` of the chunker covers `words[k*S : k*S + W]` (cut short at
      the end of the page), where `W` is the chunk size and `S` the step
      `chunk_size - overlap`; each window is a non-empty run of at most
      `W` words. */
  lemma WindowShape(words: seq<string>, size: nat, step: nat, k: nat)
    requires step > 0
    requires k < |Windows(words, size, step)|
    ensures k * step < |words|
    ensures Windows(words, size, step)[k] == words[k * step..Min(k * step + size, |words|)]
    ensures |Windows(words, size, step)[k]| <= size
    ensures size > 0 ==> |Windows(words, size, step)[k]| > 0
  {
    WindowAt(words, size, step, 0, k);
  }

  /** The number of windows is the ceiling of `n / S`, written without
      division: `(count - 1) * S < n <= count * S`. */
  lemma WindowCount(words: seq<string>, chunkSize: nat, overlap: nat)
    requires overlap < chunkSize
    ensures var step := chunkSize - overlap;
      var c := |Windows(words, chunkSize, step)|;
      if words == [] then c == 0 else (c - 1) * step < |words| <= c * step
  {
    WindowCountFrom(words, chunkSize, chunkSize - overlap, 0);
  }

  /** When window `k` is full (it ends at or before the last word) and the
      overlap is positive, window `k + 1` exists and starts with the last
      `overlap` words of window `k`. */
  lemma WindowOverlap(words: seq<string>, chunkSize: nat, overlap: nat, k: nat)
    requires 0 < overlap < chunkSize
    requires k < |Windows(words, chunkSize, chunkSize - overlap)|
    requires k * (chunkSize - overlap) + chunkSize <= |words|
    ensures var ws := Windows(words, chunkSize, chunkSize - overlap);
      && k + 1 < |ws|
      && |ws[k]| == chunkSize
      && |ws[k + 1]| >= overlap
      && ws[k][chunkSize - overlap..] == ws[k + 1][..overlap]
  {
    var step := chunkSize - overlap;
    var lo := k * step;
    WindowShape(words, chunkSize, step, k);
    MulSucc(k, step);
    NextWindowExists(words, chunkSize, step, k);
    WindowShape(words, chunkSize, step, k + 1);
    SliceOverlap(words, lo, step, chunkSize, overlap, Min(lo + step + chunkSize, |words|));
  }

  /** Two slices `step` apart share `size - step` elements. */
  lemma SliceOverlap<T>(s: seq<T>, lo: nat, step: nat, size: nat, overlap: nat, hi: nat)
    requires step + overlap == size && lo + size <= |s| && lo + size <= hi <= |s|
    ensures |s[lo + step..hi]| >= overlap
    ensures s[lo..lo + size][step..] == s[lo + step..hi][..overlap]
  {
  }

  lemma MulSucc(k: nat, step: nat)
    ensures (k + 1) * step == k * step + step
  {
  }

  /** Window `k + 1` exists as soon as its start, `(k + 1) * step`, is
      inside the page. */
  lemma NextWindowExists(words: seq<string>, size: nat, step: nat, k: nat)
    requires step > 0
    requires k < |Windows(words, size, step)|
    requires (k + 1) * step < |words|
    ensures k + 1 < |Windows(words, size, step)|
  {
    WindowCountFrom(words, size, step, 0);
    var c := |Windows(words, size, step)|;
    if c <= k + 1 {
      assert false;
    }
  }

  // ---------------------------------------------------------------------
  // The keep filter
  // ---------------------------------------------------------------------

  predicate AreWords(window: seq<string>) {
    forall i :: 0 <= i < |window| ==> window[i] != [] && NoSpace(window[i])
  }

  /** Every window of `str.split()` words is made of words. */
  lemma {:induction false} WindowsAreWords(words: seq<string>, size: nat, step: nat, start: nat)
    requires step > 0 && AreWords(words)
    ensures forall k :: 0 <= k < |WindowsFrom(words, size, step, start)| ==>
      AreWords(WindowsFrom(words, size, step, start)[k])
    decreases |words| - start
  {
    if start < |words| {
      WindowsAreWords(words, size, step, start + step);
      var ws := WindowsFrom(words, size, step, start);
      var rest := WindowsFrom(words, size, step, start + step);
      var w := words[start..Min(start + size, |words|)];
      assert ws == [w] + rest;
      assert AreWords(w) by {
        forall i | 0 <= i < |w| ensures w[i] != [] && NoSpace(w[i]) {
          assert w[i] == words[start + i];
        }
      }
      forall k | 0 <= k < |ws| ensures AreWords(ws[k]) {
        if k == 0 {
          assert ws[k] == w;
        } else {
          assert ws[k] == rest[k - 1];
          assert AreWords(rest[k - 1]);
        }
      }
    }
  }

  /** For a window of words the keep test is simply "the joined text is
      longer than 50 characters", and that text has no whitespace at
      either end. */
  lemma KeepsWindowOfWords(w: seq<string>)
    requires AreWords(w)
    ensures Keeps(w) <==> |Join(" ", w)| > MinChunkChars
    ensures Trimmed(Join(" ", w))
  {
    JoinedWordsTrimmed(w);
    assert Strip(Join(" ", w)) == Join(" ", w);
  }

  /** Every kept chunk of windows of words is longer than 50 characters
      and has no whitespace at either end. */
  lemma {:induction false} KeptChunksAreLong(ws: seq<seq<string>>)
    requires forall k :: 0 <= k < |ws| ==> AreWords(ws[k])
    ensures forall c :: c in KeptChunks(ws) ==> |c| > MinChunkChars && Trimmed(c)
    decreases |ws|
  {
    if ws != [] {
      var tail := KeptChunks(ws[1..]);
      assert forall k :: 0 <= k < |ws[1..]| ==> AreWords(ws[1..][k]) by {
        forall k | 0 <= k < |ws[1..]| ensures AreWords(ws[1..][k]) {
          assert ws[1..][k] == ws[k + 1];
        }
      }
      KeptChunksAreLong(ws[1..]);
      KeepsWindowOfWords(ws[0]);
      if Keeps(ws[0]) {
        assert KeptChunks(ws) == [Join(" ", ws[0])] + tail;
      } else {
        assert KeptChunks(ws) == tail;
      }
    }
  }

  /** `b` keeps all of `a`, in order, possibly with more in between. */
  predicate IsSubsequence(a: seq<string>, b: seq<string>)
    decreases |b|
  {
    if a == [] then true
    else if b == [] then false
    else (a[0] == b[0] && IsSubsequence(a[1..], b[1..])) || IsSubsequence(a, b[1..])
  }

  function JoinEach(ws: seq<seq<string>>): (r: seq<string>)
    ensures |r| == |ws| && forall k :: 0 <= k < |ws| ==> r[k] == Join(" ", ws[k])
  {
    seq(|ws|, k requires 0 <= k < |ws| => Join(" ", ws[k]))
  }

  /** The kept chunks keep the order of their windows. */
  lemma {:induction false} KeptChunksInWindowOrder(ws: seq<seq<string>>)
    ensures IsSubsequence(KeptChunks(ws), JoinEach(ws))
    decreases |ws|
  {
    if ws != [] {
      KeptChunksInWindowOrder(ws[1..]);
      var all := JoinEach(ws);
      assert all[1..] == JoinEach(ws[1..]);
      var rest := KeptChunks(ws[1..]);
      if Keeps(ws[0]) {
        assert KeptChunks(ws) == [all[0]] + rest;
        assert ([all[0]] + rest)[1..] == rest;
      } else {
        assert KeptChunks(ws) == rest;
        if rest != [] {
          assert IsSubsequence(rest, all[1..]);
        }
      }
    }
  }

  /** A blank page (nothing but whitespace) yields no chunks. */
  lemma BlankTextHasNoChunks(text: string, chunkSize: nat, overlap: nat)
    requires overlap < chunkSize
    requires AllSpace(text)
    ensures ChunkTexts(text, chunkSize, overlap) == []
  {
    WordsEmptyIffBlank(text);
  }

  /** Every window that passes the keep test gives a chunk. */
  lemma {:induction false} KeptChunksComplete(ws: seq<seq<string>>)
    ensures forall i :: 0 <= i < |ws| && Keeps(ws[i]) ==> Join(" ", ws[i]) in KeptChunks(ws)
    decreases |ws|
  {
    if ws != [] {
      var rest := ws[1..];
      KeptChunksComplete(rest);
      var kept := KeptChunks(ws);
      var head := if Keeps(ws[0]) then [Join(" ", ws[0])] else [];
      assert kept == head + KeptChunks(rest);
      forall i | 0 <= i < |ws| && Keeps(ws[i]) ensures Join(" ", ws[i]) in kept {
        if i == 0 {
          assert kept[0] == Join(" ", ws[0]);
        } else {
          assert rest[i - 1] == ws[i];
          assert Join(" ", rest[i - 1]) in KeptChunks(rest);
        }
      }
    }
  }

  /** Every chunk of a page is longer than 50 characters, has no
      whitespace at either end, and the chunks follow the window order;
      every window whose stripped join is longer than 50 characters gives
      a chunk. */
  lemma ChunkTextsProperties(text: string, chunkSize: nat, overlap: nat)
    requires overlap < chunkSize
    ensures var cs := ChunkTexts(text, chunkSize, overlap);
      && (forall c :: c in cs ==> |c| > MinChunkChars && Trimmed(c))
      && IsSubsequence(cs, JoinEach(Windows(Words(text), chunkSize, chunkSize - overlap)))
    ensures var ws := Windows(Words(text), chunkSize, chunkSize - overlap);
      forall w :: w in ws && |Strip(Join(" ", w))| > MinChunkChars ==>
        Join(" ", w) in ChunkTexts(text, chunkSize, overlap)
  {
    var ws := Windows(Words(text), chunkSize, chunkSize - overlap);
    WindowsAreWords(Words(text), chunkSize, chunkSize - overlap, 0);
    KeptChunksAreLong(ws);
    KeptChunksInWindowOrder(ws);
    KeptChunksComplete(ws);
  }

  /** With the defaults (500-word windows, 50 words of overlap) a page of
      520 words gives two windows: words 0-499 and words 450-519. */
  lemma FiveHundredTwentyWords(words: seq<string>)
    requires |words| == 520
    ensures var ws := Windows(words, 500, 450);
      |ws| == 2 && ws[0] == words[..500] && ws[1] == words[450..]
  {
    var ws := Windows(words, 500, 450);
    assert WindowsFrom(words, 500, 450, 900) == [];
    assert WindowsFrom(words, 500, 450, 450) == [words[450..520]];
    assert ws == [words[0..500]] + [words[450..520]];
  }
}
