/** Shared vocabulary: optional values, `position`-style search and the three
    ways the catalogue code cuts strings apart (`split(" ")`, `split("/")`,
    `split_whitespace()`) together with `join(" ")`. */
module Common {

  datatype Option<T> = None | Some(value: T) {
    /** `unwrap_or`: the value if present, otherwise the default. */
    function GetOr(default: T): T {
      if Some? then value else default
    }
  }

  /** `iter().position(p)`: the index of the first element satisfying `p`. */
  function Position<T>(s: seq<T>, p: T -> bool): (r: Option<nat>)
    ensures r.Some? ==> r.value < |s| && p(s[r.value])
    ensures r.Some? ==> forall j :: 0 <= j < r.value ==> !p(s[j])
    ensures r.None? <==> forall j :: 0 <= j < |s| ==> !p(s[j])
  {
    if |s| == 0 then None
    else if p(s[0]) then Some(0)
    else match Position(s[1..], p)
      case None => None
      case Some(k) => Some(k + 1)
  }

  /** Two first-match indices for the same predicate coincide. */
  lemma FirstMatchUnique<T>(s: seq<T>, p: T -> bool, i: nat)
    requires i < |s| && p(s[i])
    requires forall j :: 0 <= j < i ==> !p(s[j])
    ensures Position(s, p) == Some(i)
  {
  }

  // ---------------------------------------------------------------- case

  /** ASCII `to_lowercase` of one character. */
  function LowerChar(c: char): char {
    if 'A' <= c <= 'Z' then (c as int + 32) as char else c
  }

  /** ASCII `to_lowercase` of a string, character by character. */
  function Lower(s: string): (r: string)
    ensures |r| == |s|
    ensures forall i :: 0 <= i < |s| ==> r[i] == LowerChar(s[i])
  {
    if |s| == 0 then [] else [LowerChar(s[0])] + Lower(s[1..])
  }

  /** `str::contains`: `sub` occurs in `s` at some offset. */
  predicate HasSubstring(s: string, sub: string)
    decreases |s|
  {
    (|sub| <= |s| && s[..|sub|] == sub) || (|s| > 0 && HasSubstring(s[1..], sub))
  }

  /** `sub` occurs in `s` starting at offset `i`. */
  predicate OccursAt(s: string, sub: string, i: nat) {
    i + |sub| <= |s| && s[i..i + |sub|] == sub
  }

  lemma {:induction false} HasSubstringAt(s: string, sub: string, i: nat)
    requires OccursAt(s, sub, i)
    ensures HasSubstring(s, sub)
    decreases i
  {
    if i > 0 {
      assert s[1..][i - 1..i - 1 + |sub|] == s[i..i + |sub|];
      HasSubstringAt(s[1..], sub, i - 1);
    }
  }

  lemma {:induction false} HasSubstringFound(s: string, sub: string)
    requires HasSubstring(s, sub)
    ensures exists i: nat :: OccursAt(s, sub, i)
    decreases |s|
  {
    if |sub| <= |s| && s[..|sub|] == sub {
      assert OccursAt(s, sub, 0);
    } else {
      HasSubstringFound(s[1..], sub);
      var i: nat :| OccursAt(s[1..], sub, i);
      assert s[1..][i..i + |sub|] == s[i + 1..i + 1 + |sub|];
      assert OccursAt(s, sub, i + 1);
    }
  }

  /** `contains` holds exactly when `sub` occurs at some offset of `s`. */
  lemma HasSubstringExactly(s: string, sub: string)
    ensures HasSubstring(s, sub) <==> exists i: nat :: OccursAt(s, sub, i)
  {
    if HasSubstring(s, sub) {
      HasSubstringFound(s, sub);
    }
    if exists i: nat :: OccursAt(s, sub, i) {
      var i: nat :| OccursAt(s, sub, i);
      HasSubstringAt(s, sub, i);
    }
  }

  // ------------------------------------------------------- split / join

  /** `s.split(sep)` for a one-character separator: every separator ends a
      piece, so adjacent separators give empty pieces and the result is
      never empty (`"".split(sep)` is `[""]`). */
  function Split(s: string, sep: char): (r: seq<string>)
    ensures |r| >= 1
    ensures forall i, j :: 0 <= i < |r| && 0 <= j < |r[i]| ==> r[i][j] != sep
  {
    if |s| == 0 then [""]
    else
      var rest := Split(s[1..], sep);
      if s[0] == sep then [""] + rest
      else [[s[0]] + rest[0]] + rest[1..]
  }

  /** `pieces.join(sep)`. */
  function Join(pieces: seq<string>, sep: char): string {
    if |pieces| == 0 then ""
    else if |pieces| == 1 then pieces[0]
    else pieces[0] + [sep] + Join(pieces[1..], sep)
  }

  /** Splitting then joining with the same separator gives back the input. */
  lemma {:induction false} JoinSplit(s: string, sep: char)
    ensures Join(Split(s, sep), sep) == s
  {
    if |s| > 0 {
      var rest := Split(s[1..], sep);
      JoinSplit(s[1..], sep);
      if s[0] == sep {
        assert Split(s, sep) == [""] + rest;
        assert [s[0]] + s[1..] == s;
      } else {
        assert Split(s, sep) == [[s[0]] + rest[0]] + rest[1..];
        if |rest| == 1 {
          assert Join(rest, sep) == rest[0];
        } else {
          assert Join(rest, sep) == rest[0] + [sep] + Join(rest[1..], sep);
          assert ([[s[0]] + rest[0]] + rest[1..])[1..] == rest[1..];
        }
      }
    }
  }

  lemma {:induction false} SplitPrefix(w: string, x: string, sep: char)
    requires forall j :: 0 <= j < |w| ==> w[j] != sep
    ensures Split(w + x, sep) == [w + Split(x, sep)[0]] + Split(x, sep)[1..]
  {
    if |w| > 0 {
      assert (w + x)[1..] == w[1..] + x;
      SplitPrefix(w[1..], x, sep);
      assert [w[0]] + (w[1..] + Split(x, sep)[0]) == w + Split(x, sep)[0];
    } else {
      var r := Split(x, sep);
      assert w + x == x && w + r[0] == r[0];
      assert [r[0]] + r[1..] == r;
    }
  }

  /** Joining separator-free pieces and splitting again gives the pieces. */
  lemma {:induction false} SplitJoin(pieces: seq<string>, sep: char)
    requires |pieces| >= 1
    requires forall i, j :: 0 <= i < |pieces| && 0 <= j < |pieces[i]| ==> pieces[i][j] != sep
    ensures Split(Join(pieces, sep), sep) == pieces
  {
    var w := pieces[0];
    if |pieces| == 1 {
      SplitPrefix(w, "", sep);
      assert w + "" == w;
    } else {
      var tail := Join(pieces[1..], sep);
      SplitJoin(pieces[1..], sep);
      SplitPrefix(w, [sep] + tail, sep);
      assert ([sep] + tail)[1..] == tail;
      assert w + [sep] + tail == w + ([sep] + tail);
      assert Split([sep] + tail, sep) == [""] + pieces[1..];
      assert w + "" == w;
    }
  }

  // ------------------------------------------------------ whitespace

  /** Rust's `char::is_whitespace`: the Unicode White_Space property. */
  predicate IsWhitespace(c: char) {
    ('\U{9}' <= c <= '\U{D}') || c == ' ' || c == '\U{85}' || c == '\U{A0}'
    || c == '\U{1680}' || ('\U{2000}' <= c <= '\U{200A}') || c == '\U{2028}'
    || c == '\U{2029}' || c == '\U{202F}' || c == '\U{205F}' || c == '\U{3000}'
  }

  /** A token of `split_whitespace`: non-empty, free of whitespace. */
  predicate IsWord(w: string) {
    |w| > 0 && forall i :: 0 <= i < |w| ==> !IsWhitespace(w[i])
  }

  /** Length of the run of non-whitespace characters that starts `s`. */
  function WordLength(s: string): (n: nat)
    ensures n <= |s|
    ensures forall i :: 0 <= i < n ==> !IsWhitespace(s[i])
    ensures n < |s| ==> IsWhitespace(s[n])
  {
    if |s| == 0 || IsWhitespace(s[0]) then 0 else 1 + WordLength(s[1..])
  }

  /** `s.split_whitespace()`: the maximal runs of non-whitespace, in order. */
  function SplitWhitespace(s: string): (r: seq<string>)
    ensures forall i :: 0 <= i < |r| ==> IsWord(r[i])
    decreases |s|
  {
    if |s| == 0 then []
    else if IsWhitespace(s[0]) then SplitWhitespace(s[1..])
    else
      var n := WordLength(s);
      [s[..n]] + SplitWhitespace(s[n..])
  }

  lemma {:induction false} WordLengthOfWord(w: string, rest: string)
    requires IsWord(w)
    requires |rest| > 0 ==> IsWhitespace(rest[0])
    ensures WordLength(w + rest) == |w|
    decreases |w|
  {
    if |w| > 1 {
      assert (w + rest)[1..] == w[1..] + rest;
      WordLengthOfWord(w[1..], rest);
    } else {
      assert (w + rest)[1..] == rest;
    }
  }

  /** `split_whitespace` undoes `join(" ")` on a list of words. */
  lemma {:induction false} SplitJoinWords(ws: seq<string>)
    requires forall i :: 0 <= i < |ws| ==> IsWord(ws[i])
    ensures SplitWhitespace(Join(ws, ' ')) == ws
  {
    if |ws| == 1 {
      var w := ws[0];
      WordLengthOfWord(w, "");
      assert w + "" == w;
      assert w[|w|..] == "";
      assert w[..|w|] == w;
    } else if |ws| > 1 {
      var w := ws[0];
      var tail := Join(ws[1..], ' ');
      var s := w + [' '] + tail;
      assert Join(ws, ' ') == s;
      WordLengthOfWord(w, [' '] + tail);
      assert s == w + ([' '] + tail);
      assert s[..|w|] == w;
      assert s[|w|..] == [' '] + tail;
      assert ([' '] + tail)[1..] == tail;
      SplitJoinWords(ws[1..]);
      assert SplitWhitespace(s) == [w] + ws[1..];
    }
  }

  predicate AllWhitespace(g: string) {
    forall i :: 0 <= i < |g| ==> IsWhitespace(g[i])
  }

  /** The whitespace runs around the words of `SplitWhitespace(s)`: the
      one before the first word, those between words, the one after the
      last word. */
  function Gaps(s: string): (r: seq<string>)
    ensures |r| == |SplitWhitespace(s)| + 1
    decreases |s|
  {
    if |s| == 0 then [""]
    else if IsWhitespace(s[0]) then
      var g := Gaps(s[1..]);
      [[s[0]] + g[0]] + g[1..]
    else [""] + Gaps(s[WordLength(s)..])
  }

  /** `gaps[0] + words[0] + gaps[1] + ... + words[k-1] + gaps[k]`. */
  function Weave(gaps: seq<string>, words: seq<string>): string
    requires |gaps| == |words| + 1
    decreases |words|
  {
    if |words| == 0 then gaps[0] else gaps[0] + words[0] + Weave(gaps[1..], words[1..])
  }

  lemma WeaveCons(c: char, gaps: seq<string>, words: seq<string>)
    requires |gaps| == |words| + 1
    ensures Weave([[c] + gaps[0]] + gaps[1..], words) == [c] + Weave(gaps, words)
  {
    var gs := [[c] + gaps[0]] + gaps[1..];
    assert gs[1..] == gaps[1..];
  }

  /** `split_whitespace` cuts `s` into words separated by whitespace: `s` is
      its words interleaved with whitespace-only gaps, and the gaps between
      two words are non-empty, so each word is a maximal non-whitespace run. */
  lemma WhitespaceLayout(s: string)
    ensures var ws := SplitWhitespace(s);
      var gs := Gaps(s);
      && s == Weave(gs, ws)
      && (forall i :: 0 <= i < |ws| ==> IsWord(ws[i]))
      && (forall i :: 0 <= i < |gs| ==> AllWhitespace(gs[i]))
      && (forall i :: 0 < i < |ws| ==> |gs[i]| > 0)
  {
    LayoutWeave(s);
    LayoutGapsWhitespace(s);
    LayoutInnerGaps(s);
  }

  lemma {:induction false} LayoutWeave(s: string)
    ensures s == Weave(Gaps(s), SplitWhitespace(s))
    decreases |s|
  {
    if |s| > 0 {
      if IsWhitespace(s[0]) {
        LayoutWeave(s[1..]);
        WeaveCons(s[0], Gaps(s[1..]), SplitWhitespace(s[1..]));
        assert [s[0]] + s[1..] == s;
      } else {
        var n := WordLength(s);
        var rest := s[n..];
        LayoutWeave(rest);
        var gs := Gaps(s);
        var ws := SplitWhitespace(s);
        assert gs[1..] == Gaps(rest) && ws[1..] == SplitWhitespace(rest);
        assert s == "" + s[..n] + rest;
      }
    }
  }

  lemma {:induction false} LayoutGapsWhitespace(s: string)
    ensures forall i :: 0 <= i < |Gaps(s)| ==> AllWhitespace(Gaps(s)[i])
    decreases |s|
  {
    if |s| > 0 {
      var gs := Gaps(s);
      if IsWhitespace(s[0]) {
        var g := Gaps(s[1..]);
        LayoutGapsWhitespace(s[1..]);
        forall i | 0 <= i < |gs| ensures AllWhitespace(gs[i]) {
          if i > 0 {
            assert gs[i] == g[i];
          }
        }
      } else {
        var g := Gaps(s[WordLength(s)..]);
        LayoutGapsWhitespace(s[WordLength(s)..]);
        forall i | 0 < i < |gs| ensures AllWhitespace(gs[i]) {
          assert gs[i] == g[i - 1];
        }
      }
    }
  }

  lemma {:induction false} LayoutInnerGaps(s: string)
    ensures forall i :: 0 < i < |SplitWhitespace(s)| ==> |Gaps(s)[i]| > 0
    decreases |s|
  {
    if |s| > 0 {
      var gs := Gaps(s);
      var ws := SplitWhitespace(s);
      if IsWhitespace(s[0]) {
        var g := Gaps(s[1..]);
        LayoutInnerGaps(s[1..]);
        forall i | 0 < i < |ws| ensures |gs[i]| > 0 {
          assert gs[i] == g[i];
        }
      } else {
        var n := WordLength(s);
        var rest := s[n..];
        var g := Gaps(rest);
        LayoutInnerGaps(rest);
        assert gs == [""] + g;
        assert |ws| == 1 + |SplitWhitespace(rest)|;
        forall i | 0 < i < |ws| ensures |gs[i]| > 0 {
          if i == 1 {
            assert |rest| > 0 && IsWhitespace(rest[0]);
          } else {
            assert gs[i] == g[i - 1];
          }
        }
      }
    }
  }

  /** `Vec::pop` on the token list: drop the last element, if any. */
  function DropLast<T>(s: seq<T>): (r: seq<T>)
    ensures |s| > 0 ==> |r| == |s| - 1
    ensures |s| == 0 ==> r == []
  {
    if |s| == 0 then [] else s[..|s| - 1]
  }

  /** `pop` undoes `push`, and what it leaves followed by the element it
      removed is the original list. */
  lemma DropLastInverse<T>(s: seq<T>, x: T)
    ensures DropLast(s + [x]) == s
    ensures |s| > 0 ==> DropLast(s) + [s[|s| - 1]] == s
  {
    assert (s + [x])[..|s|] == s;
  }

  // ------------------------------------------------------------ sums

  /** The sum of `f` over the elements of `s`. */
  function SumOf<T>(s: seq<T>, f: T -> nat): nat {
    if |s| == 0 then 0 else SumOf(s[..|s| - 1], f) + f(s[|s| - 1])
  }

  lemma {:induction false} SumOfUpdate<T>(s: seq<T>, f: T -> nat, i: nat, x: T)
    requires i < |s|
    ensures SumOf(s[i := x], f) == SumOf(s, f) - f(s[i]) + f(x)
  {
    var n := |s| - 1;
    if i < n {
      assert s[i := x][..n] == s[..n][i := x];
      SumOfUpdate(s[..n], f, i, x);
    } else {
      assert s[i := x][..n] == s[..n];
    }
  }

  lemma SumOfAppend<T>(s: seq<T>, f: T -> nat, x: T)
    ensures SumOf(s + [x], f) == SumOf(s, f) + f(x)
  {
    assert (s + [x])[..|s|] == s;
  }
}
