/** The string normalisation the answer checker uses: trimming, lower-casing
    and joining words with single spaces. Restricted to ASCII: whitespace is the
    six ASCII blank characters and only 'A'..'Z' change case. */
module Text {

  predicate IsSpace(c: char) {
    c == ' ' || c == '\t' || c == '\n' || c == '\r' || c == '\U{000B}' || c == '\U{000C}'
  }

  /** Drops leading whitespace: what remains is a suffix of `s` that does not
      start with a blank, and everything dropped was blank. */
  function TrimStart(s: string): (r: string)
    ensures |r| <= |s| && r == s[|s| - |r|..]
    ensures |r| == 0 || !IsSpace(r[0])
    ensures forall i :: 0 <= i < |s| - |r| ==> IsSpace(s[i])
  {
    if |s| > 0 && IsSpace(s[0]) then TrimStart(s[1..]) else s
  }

  /** Drops trailing whitespace: what remains is a prefix of `s` that does not
      end with a blank, and everything dropped was blank. */
  function TrimEnd(s: string): (r: string)
    ensures |r| <= |s| && r == s[..|r|]
    ensures |r| == 0 || !IsSpace(r[|r| - 1])
    ensures forall i :: |r| <= i < |s| ==> IsSpace(s[i])
  {
    if |s| > 0 && IsSpace(s[|s| - 1]) then TrimEnd(s[..|s| - 1]) else s
  }

  /** `String.prototype.trim` on ASCII text. */
  function Trim(s: string): (r: string)
    ensures exists i, j :: 0 <= i <= j <= |s| && r == s[i..j]
                           && (forall k :: 0 <= k < i ==> IsSpace(s[k]))
                           && (forall k :: j <= k < |s| ==> IsSpace(s[k]))
    ensures |r| == 0 || (!IsSpace(r[0]) && !IsSpace(r[|r| - 1]))
  {
    var t := TrimStart(s);
    var r := TrimEnd(t);
    var i := |s| - |t|;
    assert r == s[i..i + |r|];
    r
  }

  function LowerChar(c: char): char {
    if 'A' <= c <= 'Z' then (c as int - 'A' as int + 'a' as int) as char else c
  }

  /** `String.prototype.toLowerCase` on ASCII text. */
  function Lower(s: string): (r: string)
    ensures |r| == |s|
    ensures forall i :: 0 <= i < |s| ==> r[i] == LowerChar(s[i])
  {
    seq(|s|, i requires 0 <= i < |s| => LowerChar(s[i]))
  }

  /** The comparison form of a typed answer: trimmed, then lower-cased. */
  function Normalize(s: string): string {
    Lower(Trim(s))
  }

  lemma LowerCharKeepsBlanks(c: char)
    ensures IsSpace(LowerChar(c)) <==> IsSpace(c)
    ensures LowerChar(LowerChar(c)) == LowerChar(c)
  {
  }

  /** A string with no blank at either end is its own trim. */
  lemma TrimOfTrimmed(s: string)
    requires |s| == 0 || (!IsSpace(s[0]) && !IsSpace(s[|s| - 1]))
    ensures Trim(s) == s
  {
  }

  /** Normalising twice is normalising once: an answer typed in its normal
      form compares equal to the reference answer. */
  lemma NormalizeIdempotent(s: string)
    ensures Normalize(Normalize(s)) == Normalize(s)
  {
    LowerOfTrimmedIsFixed(Trim(s));
  }

  lemma LowerOfTrimmedIsFixed(t: string)
    requires |t| == 0 || (!IsSpace(t[0]) && !IsSpace(t[|t| - 1]))
    ensures Lower(Trim(Lower(t))) == Lower(t)
  {
    var l := Lower(t);
    if |l| > 0 {
      LowerCharKeepsBlanks(t[0]);
      LowerCharKeepsBlanks(t[|t| - 1]);
      assert !IsSpace(l[0]) && !IsSpace(l[|l| - 1]);
    }
    TrimOfTrimmed(l);
    LowerOfLowered(t);
  }

  /** Lower-casing is idempotent. */
  lemma LowerOfLowered(t: string)
    ensures Lower(Lower(t)) == Lower(t)
  {
    var l := Lower(t);
    forall i | 0 <= i < |l|
      ensures Lower(l)[i] == l[i]
    {
      LowerCharKeepsBlanks(t[i]);
    }
  }

  /** `words.join(' ')`. */
  function Join(ws: seq<string>): (r: string)
    ensures |ws| == 0 ==> r == []
    ensures |ws| == 1 ==> r == ws[0]
  {
    if |ws| == 0 then []
    else if |ws| == 1 then ws[0]
    else ws[0] + " " + Join(ws[1..])
  }

  predicate HasSpace(w: string) {
    ' ' in w
  }

  /** In `a + " " + u` with a space-free `a`, the first space sits at `|a|`. */
  lemma FirstSpaceAfterWord(a: string, u: string)
    requires !HasSpace(a)
    ensures (a + " " + u)[|a|] == ' '
    ensures forall i :: 0 <= i < |a| ==> (a + " " + u)[i] != ' '
  {
    forall i | 0 <= i < |a|
      ensures (a + " " + u)[i] != ' '
    {
      assert (a + " " + u)[i] == a[i];
    }
  }

  /** Two space-free words followed by a space split the same way. */
  lemma SplitAtFirstSpace(a: string, u: string, b: string, v: string)
    requires !HasSpace(a) && !HasSpace(b)
    requires a + " " + u == b + " " + v
    ensures a == b && u == v
  {
    var x := a + " " + u;
    FirstSpaceAfterWord(a, u);
    FirstSpaceAfterWord(b, v);
    assert |a| == |b|;
    assert a == x[..|a|] == b;
    assert u == x[|a| + 1..] == v;
  }

  /** Joining equally many space-free words is injective: different word
      sequences give different sentences. */
  lemma {:induction false} JoinInjective(xs: seq<string>, ys: seq<string>)
    requires |xs| == |ys|
    requires forall i :: 0 <= i < |xs| ==> !HasSpace(xs[i])
    requires forall i :: 0 <= i < |ys| ==> !HasSpace(ys[i])
    requires Join(xs) == Join(ys)
    ensures xs == ys
    decreases |xs|
  {
    if |xs| > 1 {
      SplitAtFirstSpace(xs[0], Join(xs[1..]), ys[0], Join(ys[1..]));
      JoinInjective(xs[1..], ys[1..]);
      assert xs == [xs[0]] + xs[1..];
      assert ys == [ys[0]] + ys[1..];
    }
  }

  /** Number of spaces in `s`. */
  function Spaces(s: string): nat
    decreases |s|
  {
    if |s| == 0 then 0 else Spaces(s[..|s| - 1]) + (if s[|s| - 1] == ' ' then 1 else 0)
  }

  lemma {:induction false} SpacesAppend(a: string, b: string)
    ensures Spaces(a + b) == Spaces(a) + Spaces(b)
    decreases |b|
  {
    if |b| == 0 {
      assert a + b == a;
    } else {
      assert (a + b)[..|a + b| - 1] == a + b[..|b| - 1];
      SpacesAppend(a, b[..|b| - 1]);
    }
  }

  lemma {:induction false} SpaceFreeHasNoSpaces(w: string)
    requires !HasSpace(w)
    ensures Spaces(w) == 0
    decreases |w|
  {
    if |w| > 0 {
      assert w[|w| - 1] in w;
      var init := w[..|w| - 1];
      assert !HasSpace(init) by {
        forall i | 0 <= i < |init| ensures init[i] != ' ' {
          assert init[i] == w[i];
        }
      }
      SpaceFreeHasNoSpaces(init);
    }
  }

  /** A sentence of `n >= 1` space-free words holds exactly `n - 1` spaces. */
  lemma {:induction false} JoinSpaces(ws: seq<string>)
    requires |ws| >= 1
    requires forall i :: 0 <= i < |ws| ==> !HasSpace(ws[i])
    ensures Spaces(Join(ws)) == |ws| - 1
    decreases |ws|
  {
    SpaceFreeHasNoSpaces(ws[0]);
    if |ws| > 1 {
      JoinSpaces(ws[1..]);
      SpacesAppend(ws[0], " ");
      SpacesAppend(ws[0] + " ", Join(ws[1..]));
      assert Spaces(" ") == 1 by {
        assert " "[..0] == "";
      }
    }
  }

  /** Joining space-free words is injective on non-empty word lists, whatever
      their lengths: a sentence has one reading as such a list. */
  lemma JoinInjectiveNonEmpty(xs: seq<string>, ys: seq<string>)
    requires |xs| >= 1 && |ys| >= 1
    requires forall i :: 0 <= i < |xs| ==> !HasSpace(xs[i])
    requires forall i :: 0 <= i < |ys| ==> !HasSpace(ys[i])
    requires Join(xs) == Join(ys)
    ensures xs == ys
  {
    JoinSpaces(xs);
    JoinSpaces(ys);
    JoinInjective(xs, ys);
  }

  /** A list of two or more space-free words joins to a sentence that no
      shorter list of space-free words produces, not even the empty one. */
  lemma JoinOfFewerWordsDiffers(xs: seq<string>, ys: seq<string>)
    requires |xs| < |ys| && |ys| >= 2
    requires forall i :: 0 <= i < |xs| ==> !HasSpace(xs[i])
    requires forall i :: 0 <= i < |ys| ==> !HasSpace(ys[i])
    ensures Join(xs) != Join(ys)
  {
    JoinSpaces(ys);
    if |xs| == 0 {
      assert Spaces(Join(xs)) == 0;
    } else {
      JoinSpaces(xs);
    }
  }

  /** With a multi-word token the join is no longer injective: two different
      orders of the same three tokens read the same. */
  lemma SpacedTokensCollide()
    ensures Join(["a b", "a", "b"]) == Join(["a", "b", "a b"])
    ensures ["a b", "a", "b"] != ["a", "b", "a b"]
  {
    assert Join(["a b", "a", "b"]) == "a b a b";
    assert Join(["a", "b", "a b"]) == "a b a b";
  }
}
