/** The text normaliser of feature.py: every affiliation, title and venue
    name goes through `lower()`, then `charFilter`, then `split()`, then the
    stop-word filter, then `" ".join(...)` before it is stored. */
module Text {
  import opened Util

  predicate IsLetter(c: char) {
    'a' <= c <= 'z'
  }

  /** The characters `charFilter` keeps: the class `[a-z ]`. */
  predicate IsKept(c: char) {
    IsLetter(c) || c == ' '
  }

  predicate AllKept(s: string) {
    forall i :: 0 <= i < |s| ==> IsKept(s[i])
  }

  /** Python 2 `str.lower()` on a byte string: only ASCII `A`-`Z` change. */
  function LowerChar(c: char): (r: char)
    ensures 'A' <= c <= 'Z' ==> IsLetter(r)
    ensures !('A' <= c <= 'Z') ==> r == c
  {
    if 'A' <= c <= 'Z' then (c as int - 'A' as int + 'a' as int) as char else c
  }

  function Lower(s: string): (r: string)
    ensures |r| == |s|
    ensures forall i :: 0 <= i < |s| ==> r[i] == LowerChar(s[i])
  {
    seq(|s|, i requires 0 <= i < |s| => LowerChar(s[i]))
  }

  /** `re.sub('[^a-z ]', '', s)` */
  function CharFilter(s: string): (r: string)
    ensures AllKept(r)
    ensures |r| <= |s|
    decreases |s|
  {
    if s == [] then []
    else
      var init := CharFilter(s[..|s| - 1]);
      if IsKept(s[|s| - 1]) then init + [s[|s| - 1]] else init
  }

  lemma {:induction false} CharFilterIsSubsequence(s: string)
    ensures IsSubsequence(CharFilter(s), s)
    decreases |s|
  {
    if s != [] {
      var init := s[..|s| - 1];
      CharFilterIsSubsequence(init);
      var r := CharFilter(s);
      if IsKept(s[|s| - 1]) {
        assert r[..|r| - 1] == CharFilter(init);
      } else if r != [] {
        // a dropped character cannot be the last kept one
        assert IsKept(r[|r| - 1]);
      }
    }
  }

  /** On text that already holds only `[a-z ]`, `charFilter` changes nothing;
      so `charFilter` is idempotent. */
  lemma {:induction false} CharFilterKeepsKept(s: string)
    requires AllKept(s)
    ensures CharFilter(s) == s
    decreases |s|
  {
    if s != [] {
      CharFilterKeepsKept(s[..|s| - 1]);
      assert s[..|s| - 1] + [s[|s| - 1]] == s;
    }
  }

  lemma CharFilterIdempotent(s: string)
    ensures CharFilter(CharFilter(s)) == CharFilter(s)
  {
    CharFilterKeepsKept(CharFilter(s));
  }

  /** A token of `split()`: non-empty and without a separator. */
  predicate IsWord(w: string) {
    w != [] && ' ' !in w
  }

  /** `str.split()` on filtered text, where the only whitespace left is the
      space: maximal runs of non-space characters, empty tokens dropped. `cur`
      is the token being read. */
  function WordsFrom(s: string, cur: string): (ws: seq<string>)
    requires ' ' !in cur
    ensures forall i :: 0 <= i < |ws| ==> IsWord(ws[i])
    decreases |s|
  {
    if s == [] then (if cur == [] then [] else [cur])
    else if s[0] == ' ' then
      (if cur == [] then WordsFrom(s[1..], []) else [cur] + WordsFrom(s[1..], []))
    else WordsFrom(s[1..], cur + [s[0]])
  }

  function Words(s: string): (ws: seq<string>)
    ensures forall i :: 0 <= i < |ws| ==> IsWord(ws[i])
  {
    WordsFrom(s, [])
  }

  /** `" ".join(ws)` */
  function Join(ws: seq<string>): string
    decreases |ws|
  {
    if ws == [] then []
    else if |ws| == 1 then ws[0]
    else ws[0] + " " + Join(ws[1..])
  }

  lemma {:induction false} WordsFromSkipsWord(w: string, rest: string, cur: string)
    requires ' ' !in w && ' ' !in cur
    ensures WordsFrom(w + rest, cur) == WordsFrom(rest, cur + w)
    decreases |w|
  {
    if w != [] {
      assert (w + rest)[1..] == w[1..] + rest;
      WordsFromSkipsWord(w[1..], rest, cur + [w[0]]);
      assert cur + [w[0]] + w[1..] == cur + w;
    } else {
      assert w + rest == rest;
      assert cur + w == cur;
    }
  }

  /** `split()` undoes `" ".join` on a list of proper tokens. */
  lemma {:induction false} WordsOfJoin(ws: seq<string>)
    requires forall i :: 0 <= i < |ws| ==> IsWord(ws[i])
    ensures Words(Join(ws)) == ws
    decreases |ws|
  {
    if ws == [] {
    } else if |ws| == 1 {
      WordsFromSkipsWord(ws[0], [], []);
      assert ws[0] + [] == ws[0];
      assert [] + ws[0] == ws[0];
    } else {
      var rest := Join(ws[1..]);
      assert Join(ws) == ws[0] + (" " + rest);
      WordsFromSkipsWord(ws[0], " " + rest, []);
      assert [] + ws[0] == ws[0];
      assert (" " + rest)[1..] == rest;
      WordsOfJoin(ws[1..]);
      assert ws == [ws[0]] + ws[1..];
    }
  }

  lemma {:induction false} JoinKept(ws: seq<string>)
    requires forall i :: 0 <= i < |ws| ==> AllKept(ws[i])
    ensures AllKept(Join(ws))
    decreases |ws|
  {
    if |ws| > 1 {
      JoinKept(ws[1..]);
    }
  }

  lemma {:induction false} WordsFromKept(s: string, cur: string)
    requires ' ' !in cur && AllKept(s) && AllKept(cur)
    ensures forall i :: 0 <= i < |WordsFrom(s, cur)| ==> AllKept(WordsFrom(s, cur)[i])
    decreases |s|
  {
    if s != [] {
      if s[0] == ' ' {
        WordsFromKept(s[1..], []);
      } else {
        WordsFromKept(s[1..], cur + [s[0]]);
      }
    }
  }

  /** `[w for w in ws if not w in stop]` */
  function DropStopwords(ws: seq<string>, stop: set<string>): (r: seq<string>)
    ensures forall i :: 0 <= i < |r| ==> r[i] !in stop
    ensures forall w :: w in r <==> w in ws && w !in stop
    ensures |r| <= |ws|
    decreases |ws|
  {
    if ws == [] then []
    else
      var init := DropStopwords(ws[..|ws| - 1], stop);
      assert ws == ws[..|ws| - 1] + [ws[|ws| - 1]];
      if ws[|ws| - 1] in stop then init else init + [ws[|ws| - 1]]
  }

  lemma {:induction false} DropStopwordsKeepsClean(ws: seq<string>, stop: set<string>)
    requires forall i :: 0 <= i < |ws| ==> ws[i] !in stop
    ensures DropStopwords(ws, stop) == ws
    decreases |ws|
  {
    if ws != [] {
      DropStopwordsKeepsClean(ws[..|ws| - 1], stop);
      assert ws[..|ws| - 1] + [ws[|ws| - 1]] == ws;
    }
  }

  /** The tokens a normalised string is built from. */
  function NormalizedWords(raw: string, stop: set<string>): seq<string> {
    DropStopwords(Words(CharFilter(Lower(raw))), stop)
  }

  /** The lower / charFilter / split / drop stop-words / join idiom
      (feature.py:191-195, 247-249, 290-292, 318-320, 360-362). */
  function Normalize(raw: string, stop: set<string>): string {
    Join(NormalizedWords(raw, stop))
  }

  /** A normalised string holds only `[a-z ]`, and splitting it gives back
      exactly its tokens: none empty, none a stop-word. */
  lemma NormalizeFacts(raw: string, stop: set<string>)
    ensures AllKept(Normalize(raw, stop))
    ensures Words(Normalize(raw, stop)) == NormalizedWords(raw, stop)
    ensures forall w :: w in Words(Normalize(raw, stop)) ==> IsWord(w) && w !in stop
  {
    var ws := NormalizedWords(raw, stop);
    var filtered := CharFilter(Lower(raw));
    WordsFromKept(filtered, []);
    assert forall i :: 0 <= i < |ws| ==> AllKept(ws[i]) && IsWord(ws[i]) by {
      forall i | 0 <= i < |ws|
        ensures AllKept(ws[i]) && IsWord(ws[i])
      {
        assert ws[i] in Words(filtered);
      }
    }
    JoinKept(ws);
    WordsOfJoin(ws);
  }

  lemma {:induction false} LowerKeepsKept(s: string)
    requires AllKept(s)
    ensures Lower(s) == s
  {
  }

  /** Normalising twice is normalising once. */
  lemma NormalizeIdempotent(raw: string, stop: set<string>)
    ensures Normalize(Normalize(raw, stop), stop) == Normalize(raw, stop)
  {
    var n := Normalize(raw, stop);
    NormalizeFacts(raw, stop);
    LowerKeepsKept(n);
    CharFilterKeepsKept(n);
    DropStopwordsKeepsClean(Words(n), stop);
  }
}
