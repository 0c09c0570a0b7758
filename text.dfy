/**
 * Text handling of the note store: the normalisation applied before embedding and
 * full-text matching (`_normalize`), whitespace splitting and joining as Python's
 * `str.split()` and `" ".join` do them, and the word chunker (`_chunk`).
 */
module Text {

  /** The characters Python's `str.isspace()` accepts; `str.split()` and the regex class `\s` use the same set. */
  predicate IsSpace(c: char)
  {
    || c == ' '
    || ('\t' <= c <= '\r')
    || ('\U{1c}' <= c <= '\U{1f}')
    || c == '\U{85}' || c == '\U{a0}' || c == '\U{1680}'
    || ('\U{2000}' <= c <= '\U{200a}')
    || c == '\U{2028}' || c == '\U{2029}' || c == '\U{202f}' || c == '\U{205f}' || c == '\U{3000}'
  }

  predicate IsUpper(c: char)
  {
    'A' <= c <= 'Z'
  }

  /**
   * The regex class `\w`: ASCII letters, digits and the underscore, and every
   * non-ASCII character that is not whitespace (the model does not carry the
   * Unicode tables).
   */
  predicate IsWordChar(c: char)
  {
    || ('a' <= c <= 'z') || IsUpper(c) || ('0' <= c <= '9') || c == '_'
    || (c as int >= 128 && !IsSpace(c))
  }

  /** `str.lower()` on one character (ASCII case mapping). */
  function Lower(c: char): (d: char)
    ensures !IsUpper(d)
    ensures IsWordChar(d) <==> IsWordChar(c)
    ensures IsSpace(d) <==> IsSpace(c)
  {
    if IsUpper(c) then (c as int + 32) as char else c
  }

  /** A character `_normalize` keeps unchanged. */
  predicate IsNormalChar(c: char)
  {
    (IsWordChar(c) || IsSpace(c)) && !IsUpper(c)
  }

  predicate IsNormal(s: string)
  {
    forall i :: 0 <= i < |s| ==> IsNormalChar(s[i])
  }

  /**
   * `_normalize`: lower-case the text, then delete every character that is
   * neither a word character nor whitespace (`re.sub(r'[^\w\s]', '', ...)`).
   */
  function Normalize(s: string): (r: string)
    ensures |r| <= |s|
    ensures IsNormal(r)
  {
    if s == [] then []
    else
      var c := Lower(s[0]);
      (if IsWordChar(c) || IsSpace(c) then [c] else []) + Normalize(s[1..])
  }

  /** Normalisation leaves a text unchanged exactly when it is already in normal form. */
  lemma {:induction false} NormalizeFixesExactlyNormal(s: string)
    ensures Normalize(s) == s <==> IsNormal(s)
  {
    if s != [] && IsNormal(s) {
      assert IsNormal(s[1..]) by {
        forall i | 0 <= i < |s[1..]| ensures IsNormalChar(s[1..][i]) {
          assert s[1..][i] == s[i + 1];
        }
      }
      NormalizeFixesExactlyNormal(s[1..]);
      assert IsNormalChar(s[0]);
    }
  }

  /** `_normalize` is idempotent. */
  lemma NormalizeIdempotent(s: string)
    ensures Normalize(Normalize(s)) == Normalize(s)
  {
    NormalizeFixesExactlyNormal(Normalize(s));
  }

  // ---------------------------------------------------------------------------
  // Splitting and joining words

  /** A word of `str.split()`: non-empty and free of whitespace. */
  predicate IsWord(w: string)
  {
    |w| > 0 && forall i :: 0 <= i < |w| ==> !IsSpace(w[i])
  }

  /** Length of the longest whitespace-free prefix. */
  function WordLen(s: string): (n: nat)
    ensures n <= |s|
    ensures forall i :: 0 <= i < n ==> !IsSpace(s[i])
    ensures n < |s| ==> IsSpace(s[n])
  {
    if s == [] || IsSpace(s[0]) then 0 else 1 + WordLen(s[1..])
  }

  /** `str.split()` with no separator: the maximal runs of non-whitespace, in order. */
  function Words(s: string): (ws: seq<string>)
    ensures forall i :: 0 <= i < |ws| ==> IsWord(ws[i])
    decreases |s|
  {
    if s == [] then []
    else if IsSpace(s[0]) then Words(s[1..])
    else
      var n := WordLen(s);
      [s[..n]] + Words(s[n..])
  }

  /** The non-whitespace characters of `s`, in order. */
  function NonSpace(s: string): string
  {
    if s == [] then [] else (if IsSpace(s[0]) then [] else [s[0]]) + NonSpace(s[1..])
  }

  /** The strings of `ws` written one after the other. */
  function Concat(ws: seq<string>): string
  {
    if ws == [] then [] else ws[0] + Concat(ws[1..])
  }

  lemma {:induction false} NonSpaceAppend(a: string, b: string)
    ensures NonSpace(a + b) == NonSpace(a) + NonSpace(b)
    decreases |a|
  {
    if a == [] {
      assert a + b == b;
    } else {
      assert (a + b)[0] == a[0];
      assert (a + b)[1..] == a[1..] + b;
      NonSpaceAppend(a[1..], b);
    }
  }

  lemma {:induction false} NonSpaceOfWord(w: string)
    requires forall i :: 0 <= i < |w| ==> !IsSpace(w[i])
    ensures NonSpace(w) == w
    decreases |w|
  {
    if w != [] {
      assert forall i :: 0 <= i < |w[1..]| ==> w[1..][i] == w[i + 1];
      NonSpaceOfWord(w[1..]);
      assert w == [w[0]] + w[1..];
    }
  }

  /**
   * `str.split()` drops whitespace and nothing else: its words, written one
   * after the other, are the text's non-whitespace characters in order.
   */
  lemma {:induction false} WordsKeepText(s: string)
    ensures Concat(Words(s)) == NonSpace(s)
    decreases |s|
  {
    if s != [] {
      if IsSpace(s[0]) {
        WordsKeepText(s[1..]);
      } else {
        var n := WordLen(s);
        assert s == s[..n] + s[n..];
        NonSpaceAppend(s[..n], s[n..]);
        NonSpaceOfWord(s[..n]);
        WordsKeepText(s[n..]);
        assert Words(s) == [s[..n]] + Words(s[n..]);
      }
    }
  }

  /**
   * The number of maximal runs of non-whitespace in `s`; `afterSpace` says
   * whether what precedes `s` is whitespace or the start of the text.
   */
  function Runs(s: string, afterSpace: bool): nat
  {
    if s == [] then 0
    else (if !IsSpace(s[0]) && afterSpace then 1 else 0) + Runs(s[1..], IsSpace(s[0]))
  }

  lemma {:induction false} RunsInWord(s: string, k: nat)
    requires k <= |s| && forall i :: 0 <= i < k ==> !IsSpace(s[i])
    requires k == |s| || IsSpace(s[k])
    ensures Runs(s, false) == Runs(s[k..], true)
    decreases k
  {
    if k > 0 {
      assert s[1..][k - 1..] == s[k..];
      RunsInWord(s[1..], k - 1);
    }
  }

  /** `str.split()` splits no run and joins none: it yields one word per maximal run of non-whitespace. */
  lemma {:induction false} WordsCountRuns(s: string)
    ensures |Words(s)| == Runs(s, true)
    decreases |s|
  {
    if s != [] {
      if IsSpace(s[0]) {
        WordsCountRuns(s[1..]);
      } else {
        var n := WordLen(s);
        RunsInWord(s[1..], n - 1);
        assert s[1..][n - 1..] == s[n..];
        WordsCountRuns(s[n..]);
      }
    }
  }

  /** `" ".join(ws)`. */
  function Join(ws: seq<string>): string
  {
    if |ws| == 0 then ""
    else if |ws| == 1 then ws[0]
    else ws[0] + " " + Join(ws[1..])
  }

  lemma {:induction false} WordLenOfWord(w: string, rest: string)
    requires IsWord(w)
    requires rest == [] || IsSpace(rest[0])
    ensures WordLen(w + rest) == |w|
    decreases |w|
  {
    var s := w + rest;
    assert s[0] == w[0];
    if |w| > 1 {
      assert IsWord(w[1..]);
      assert s[1..] == w[1..] + rest;
      WordLenOfWord(w[1..], rest);
    } else {
      assert s[1..] == rest;
    }
  }

  lemma WordsOfWordThen(w: string, rest: string)
    requires IsWord(w)
    requires rest == [] || IsSpace(rest[0])
    ensures Words(w + rest) == [w] + Words(rest)
  {
    var s := w + rest;
    WordLenOfWord(w, rest);
    assert s[0] == w[0];
    assert s[..|w|] == w;
    assert s[|w|..] == rest;
  }

  /** Splitting a space-joined list of words gives the list back. */
  lemma {:induction false} WordsOfJoin(ws: seq<string>)
    requires forall i :: 0 <= i < |ws| ==> IsWord(ws[i])
    ensures Words(Join(ws)) == ws
  {
    if |ws| == 1 {
      WordsOfWordThen(ws[0], "");
      assert ws[0] + "" == ws[0];
    } else if |ws| > 1 {
      var tail := Join(ws[1..]);
      var rest := " " + tail;
      assert Join(ws) == ws[0] + rest;
      WordsOfWordThen(ws[0], rest);
      assert rest[1..] == tail;
      WordsOfJoin(ws[1..]);
      assert Words(rest) == Words(tail);
      assert ws == [ws[0]] + ws[1..];
    }
  }

  // ---------------------------------------------------------------------------
  // The chunker

  /** The word count `add` passes to `_chunk` (its default). */
  const MaxWords: nat := 100

  /** `words[i:i + m]` for `i` in `range(0, len(words), m)`. */
  function Groups(ws: seq<string>, m: nat): seq<seq<string>>
    requires m > 0
    decreases |ws|
  {
    if ws == [] then []
    else if |ws| <= m then [ws]
    else [ws[..m]] + Groups(ws[m..], m)
  }

  function JoinAll(gs: seq<seq<string>>): (cs: seq<string>)
    ensures |cs| == |gs|
  {
    if gs == [] then [] else [Join(gs[0])] + JoinAll(gs[1..])
  }

  /** The word list of each chunk. */
  function WordLists(cs: seq<string>): (ls: seq<seq<string>>)
    ensures |ls| == |cs|
  {
    if cs == [] then [] else [Words(cs[0])] + WordLists(cs[1..])
  }

  function Flatten(ls: seq<seq<string>>): seq<string>
  {
    if ls == [] then [] else ls[0] + Flatten(ls[1..])
  }

  /**
   * `_chunk(text, m)`: the text itself when it has at most `m` words, otherwise
   * the space-joined groups of `m` consecutive words (the last group shorter).
   * `range` with step 0 raises, hence `m > 0`.
   */
  function Chunk(text: string, m: nat): seq<string>
    requires m > 0
  {
    var ws := Words(text);
    if |ws| <= m then [text] else JoinAll(Groups(ws, m))
  }

  lemma {:induction false} GroupsFlatten(ws: seq<string>, m: nat)
    requires m > 0
    ensures Flatten(Groups(ws, m)) == ws
    decreases |ws|
  {
    if ws != [] && |ws| > m {
      GroupsFlatten(ws[m..], m);
      assert ws == ws[..m] + ws[m..];
    } else if ws != [] {
      assert Flatten([ws]) == ws + Flatten([]);
    }
  }

  /** The number of groups is ceil(|ws| / m): the least count whose groups of `m` hold every word. */
  lemma {:induction false} GroupsCount(ws: seq<string>, m: nat)
    requires m > 0
    ensures ws != [] ==> (|Groups(ws, m)| - 1) * m < |ws| <= |Groups(ws, m)| * m
    decreases |ws|
  {
    if ws != [] && |ws| > m {
      var c := |Groups(ws[m..], m)|;
      GroupsCount(ws[m..], m);
      assert |Groups(ws, m)| == c + 1;
      assert (c + 1) * m == c * m + m;
    }
  }

  lemma {:induction false} GroupsBounded(ws: seq<string>, m: nat)
    requires m > 0
    requires forall i :: 0 <= i < |ws| ==> IsWord(ws[i])
    ensures forall i :: 0 <= i < |Groups(ws, m)| ==> 0 < |Groups(ws, m)[i]| <= m
    ensures forall i, j :: 0 <= i < |Groups(ws, m)| && 0 <= j < |Groups(ws, m)[i]| ==>
              IsWord(Groups(ws, m)[i][j])
    decreases |ws|
  {
    if ws != [] && |ws| > m {
      var gs := Groups(ws, m);
      var rest := Groups(ws[m..], m);
      GroupsBounded(ws[m..], m);
      assert gs[0] == ws[..m];
      forall i | 1 <= i < |gs| ensures gs[i] == rest[i - 1] {
      }
    }
  }

  lemma {:induction false} WordListsOfJoinAll(gs: seq<seq<string>>)
    requires forall i, j :: 0 <= i < |gs| && 0 <= j < |gs[i]| ==> IsWord(gs[i][j])
    ensures WordLists(JoinAll(gs)) == gs
  {
    if gs != [] {
      WordsOfJoin(gs[0]);
      WordListsOfJoinAll(gs[1..]);
      assert JoinAll(gs)[1..] == JoinAll(gs[1..]);
      assert gs == [gs[0]] + gs[1..];
    }
  }

  /**
   * The chunker's promise: a text of at most `m` words is one chunk equal to the
   * text; a longer one becomes ceil(n/m) chunks of 1..m words each; and the
   * chunks' word lists, concatenated, are the text's word list in order.
   */
  lemma ChunkShape(text: string, m: nat)
    requires m > 0
    ensures |Words(text)| <= m ==> Chunk(text, m) == [text]
    ensures |Words(text)| > m ==>
              (|Chunk(text, m)| - 1) * m < |Words(text)| <= |Chunk(text, m)| * m
    ensures Flatten(WordLists(Chunk(text, m))) == Words(text)
    ensures forall i :: 0 <= i < |Chunk(text, m)| ==> |Words(Chunk(text, m)[i])| <= m
    ensures |Words(text)| > m ==>
              forall i :: 0 <= i < |Chunk(text, m)| ==> |Words(Chunk(text, m)[i])| > 0
  {
    var ws := Words(text);
    var cs := Chunk(text, m);
    if |ws| <= m {
      assert WordLists(cs) == [ws];
      assert Flatten([ws]) == ws + Flatten([]);
    } else {
      var gs := Groups(ws, m);
      GroupsFlatten(ws, m);
      GroupsCount(ws, m);
      GroupsBounded(ws, m);
      WordListsOfJoinAll(gs);
      forall i | 0 <= i < |cs| ensures 0 < |Words(cs[i])| <= m {
        assert Words(cs[i]) == WordLists(cs)[i] by { WordListsAt(cs, i); }
      }
    }
  }

  lemma {:induction false} WordListsAt(cs: seq<string>, i: nat)
    requires i < |cs|
    ensures WordLists(cs)[i] == Words(cs[i])
  {
    if i > 0 {
      WordListsAt(cs[1..], i - 1);
    }
  }

  /**
   * The chunks lose no text: the words of all chunks, written one after the
   * other, are the text's non-whitespace characters in order.
   */
  lemma ChunksKeepText(text: string, m: nat)
    requires m > 0
    ensures Concat(Flatten(WordLists(Chunk(text, m)))) == NonSpace(text)
  {
    ChunkShape(text, m);
    WordsKeepText(text);
  }
}
