/**
  The Python `str` methods the server applies to a request: `strip()` and
  `split()` with no arguments (line 75 of app/main.py), and the `upper()` and
  `lower()` the dispatcher compares tokens with.
 */
module PyText {

  /**
    `str.isspace()` for one character: the characters Python's argument-less
    `split()` and `strip()` treat as whitespace.
   */
  predicate IsSpace(c: char) {
    || '\t' <= c <= '\r'
    || '\U{1C}' <= c <= '\U{1F}'
    || c == ' ' || c == '\U{85}' || c == '\U{A0}' || c == '\U{1680}'
    || '\U{2000}' <= c <= '\U{200A}'
    || c == '\U{2028}' || c == '\U{2029}' || c == '\U{202F}' || c == '\U{205F}' || c == '\U{3000}'
  }

  predicate AllSpace(s: string) {
    forall i :: 0 <= i < |s| ==> IsSpace(s[i])
  }

  /** A token of `split()`: a non-empty run of non-whitespace characters. */
  predicate IsToken(t: string) {
    |t| > 0 && forall i :: 0 <= i < |t| ==> !IsSpace(t[i])
  }

  // ---- strip ---------------------------------------------------------------

  function StripLeft(s: string): (r: string)
    ensures |r| <= |s| && r == s[|s| - |r|..]
    ensures AllSpace(s[..|s| - |r|])
    ensures r == [] || !IsSpace(r[0])
  {
    if |s| > 0 && IsSpace(s[0]) then StripLeft(s[1..]) else s
  }

  function StripRight(s: string): (r: string)
    ensures |r| <= |s| && r == s[..|r|]
    ensures AllSpace(s[|r|..])
    ensures r == [] || !IsSpace(r[|r| - 1])
  {
    if |s| > 0 && IsSpace(s[|s| - 1]) then
      var t := s[..|s| - 1];
      var r := StripRight(t);
      assert s[|r|..] == t[|r|..] + [s[|s| - 1]];
      r
    else s
  }

  /** `s.strip()`: `s` without its leading and trailing whitespace. */
  function Strip(s: string): string {
    StripRight(StripLeft(s))
  }

  // ---- split ---------------------------------------------------------------

  /** The length of the run of non-whitespace characters at the front of `s`. */
  function WordLength(s: string): (k: nat)
    ensures k <= |s|
    ensures forall i :: 0 <= i < k ==> !IsSpace(s[i])
    ensures k < |s| ==> IsSpace(s[k])
  {
    if |s| > 0 && !IsSpace(s[0]) then 1 + WordLength(s[1..]) else 0
  }

  /**
    `s.split()`: the maximal runs of non-whitespace characters of `s`, in
    order; every one of them is a token.
   */
  function Split(s: string): (tokens: seq<string>)
    ensures forall i :: 0 <= i < |tokens| ==> IsToken(tokens[i])
    decreases |s|
  {
    if |s| == 0 then []
    else if IsSpace(s[0]) then Split(s[1..])
    else
      var k := WordLength(s);
      [s[..k]] + Split(s[k..])
  }

  /** The request line as the connection handler splits it: `message.strip().split()`. */
  function Tokenize(message: string): seq<string> {
    Split(Strip(message))
  }

  /** The characters of `s` that are not whitespace, in order. */
  function RemoveSpace(s: string): string {
    if |s| == 0 then []
    else if IsSpace(s[0]) then RemoveSpace(s[1..])
    else [s[0]] + RemoveSpace(s[1..])
  }

  function Concat(ts: seq<string>): string {
    if |ts| == 0 then [] else ts[0] + Concat(ts[1..])
  }

  /** The tokens joined with single spaces: `" ".join(ts)`. */
  function JoinSpace(ts: seq<string>): string {
    if |ts| == 0 then [] else if |ts| == 1 then ts[0] else ts[0] + " " + JoinSpace(ts[1..])
  }

  lemma {:induction false} RemoveSpaceAppend(a: string, b: string)
    ensures RemoveSpace(a + b) == RemoveSpace(a) + RemoveSpace(b)
    decreases |a|
  {
    if |a| == 0 {
      assert a + b == b;
    } else {
      assert (a + b)[1..] == a[1..] + b;
      RemoveSpaceAppend(a[1..], b);
    }
  }

  lemma {:induction false} RemoveSpaceOfWord(w: string)
    requires forall i :: 0 <= i < |w| ==> !IsSpace(w[i])
    ensures RemoveSpace(w) == w
    decreases |w|
  {
    if |w| > 0 {
      RemoveSpaceOfWord(w[1..]);
    }
  }

  /** Splitting loses exactly the whitespace: the tokens concatenate to the non-whitespace text. */
  lemma {:induction false} SplitKeepsText(s: string)
    ensures Concat(Split(s)) == RemoveSpace(s)
    decreases |s|
  {
    if |s| > 0 {
      if IsSpace(s[0]) {
        SplitKeepsText(s[1..]);
      } else {
        var k := WordLength(s);
        var tokens := Split(s);
        assert tokens[0] == s[..k] && tokens[1..] == Split(s[k..]);
        SplitKeepsText(s[k..]);
        assert s == s[..k] + s[k..];
        RemoveSpaceAppend(s[..k], s[k..]);
        RemoveSpaceOfWord(s[..k]);
      }
    }
  }

  /** `split()` finds no token exactly when the text is all whitespace. */
  lemma {:induction false} SplitEmptyIffBlank(s: string)
    ensures Split(s) == [] <==> AllSpace(s)
    decreases |s|
  {
    if |s| > 0 && IsSpace(s[0]) {
      SplitEmptyIffBlank(s[1..]);
      assert AllSpace(s) <==> AllSpace(s[1..]) by {
        if AllSpace(s[1..]) {
          forall i | 0 <= i < |s| ensures IsSpace(s[i]) {
            if i > 0 { assert s[i] == s[1..][i - 1]; }
          }
        }
      }
    }
  }

  /** Trailing whitespace does not change the tokens. */
  lemma {:induction false} SplitIgnoresTrailingSpace(s: string, w: string)
    requires AllSpace(w)
    ensures Split(s + w) == Split(s)
    decreases |s|
  {
    if |s| == 0 {
      assert s + w == w;
      SplitEmptyIffBlank(w);
    } else if IsSpace(s[0]) {
      assert (s + w)[1..] == s[1..] + w;
      SplitIgnoresTrailingSpace(s[1..], w);
    } else {
      var k := WordLength(s);
      assert WordLength(s + w) == k by {
        WordLengthOfPrefix(s, w);
      }
      assert (s + w)[..k] == s[..k];
      assert (s + w)[k..] == s[k..] + w;
      SplitIgnoresTrailingSpace(s[k..], w);
    }
  }

  /** A word followed by whitespace (or nothing) is measured the same as the word alone. */
  lemma {:induction false} WordLengthOfPrefix(s: string, w: string)
    requires AllSpace(w)
    ensures WordLength(s + w) == WordLength(s)
    decreases |s|
  {
    if |s| == 0 {
      assert s + w == w;
    } else if !IsSpace(s[0]) {
      assert (s + w)[1..] == s[1..] + w;
      WordLengthOfPrefix(s[1..], w);
    }
  }

  /** `strip()` before `split()` changes nothing: the tokens are those of the raw message. */
  lemma StripThenSplit(s: string)
    ensures Tokenize(s) == Split(s)
  {
    SplitOfStripLeft(s);
    SplitOfStripRight(StripLeft(s));
  }

  lemma SplitOfStripLeft(s: string)
    ensures Split(StripLeft(s)) == Split(s)
  {
    var l := StripLeft(s);
    var lead := s[..|s| - |l|];
    assert s == lead + l;
    SplitSkipsLeadingSpace(lead, l);
  }

  lemma SplitOfStripRight(s: string)
    ensures Split(StripRight(s)) == Split(s)
  {
    var r := StripRight(s);
    var trail := s[|r|..];
    assert s == r + trail;
    SplitIgnoresTrailingSpace(r, trail);
  }

  lemma {:induction false} SplitSkipsLeadingSpace(w: string, s: string)
    requires AllSpace(w)
    ensures Split(w + s) == Split(s)
    decreases |w|
  {
    if |w| > 0 {
      assert (w + s)[1..] == w[1..] + s;
      SplitSkipsLeadingSpace(w[1..], s);
    } else {
      assert w + s == s;
    }
  }

  /**
    Splitting undoes joining with single spaces: the tokens are recovered
    whole and in order, so no token is ever broken up or merged.
   */
  lemma {:induction false} SplitJoinSpace(ts: seq<string>)
    requires forall i :: 0 <= i < |ts| ==> IsToken(ts[i])
    ensures Split(JoinSpace(ts)) == ts
    decreases |ts|
  {
    if |ts| == 1 {
      SplitTokenThen(ts[0], []);
      assert ts[0] + [] == ts[0];
    } else if |ts| > 1 {
      var rest := JoinSpace(ts[1..]);
      assert JoinSpace(ts) == ts[0] + (" " + rest);
      SplitTokenThen(ts[0], " " + rest);
      SplitSkipsLeadingSpace(" ", rest);
      SplitJoinSpace(ts[1..]);
      assert [ts[0]] + ts[1..] == ts;
    }
  }

  /**
    Whitespace runs that can separate `n` tokens: one before the first
    token, one between each two (never empty) and one after the last.
   */
  predicate Separators(seps: seq<string>, n: nat) {
    && |seps| == n + 1
    && (forall i :: 0 <= i < |seps| ==> AllSpace(seps[i]))
    && (forall i :: 0 < i < n ==> |seps[i]| > 0)
  }

  /** `seps[0] + ts[0] + seps[1] + ... + ts[n - 1] + seps[n]`. */
  function Interleave(seps: seq<string>, ts: seq<string>): string
    requires |seps| == |ts| + 1
    decreases |ts|
  {
    if |ts| == 0 then seps[0] else seps[0] + ts[0] + Interleave(seps[1..], ts[1..])
  }

  /**
    `split()` recovers the tokens of any text made of tokens and whitespace
    separators, whatever whitespace the separators hold: every token is a
    maximal run between whitespace.
   */
  lemma {:induction false} SplitInterleave(seps: seq<string>, ts: seq<string>)
    requires Separators(seps, |ts|)
    requires forall i :: 0 <= i < |ts| ==> IsToken(ts[i])
    ensures Split(Interleave(seps, ts)) == ts
    decreases |ts|
  {
    if |ts| == 0 {
      SplitEmptyIffBlank(seps[0]);
    } else {
      var r := Interleave(seps[1..], ts[1..]);
      assert Interleave(seps, ts) == seps[0] + (ts[0] + r);
      SplitSkipsLeadingSpace(seps[0], ts[0] + r);
      SpaceAfterToken(seps, ts);
      SplitTokenThen(ts[0], r);
      SeparatorsTail(seps, |ts|);
      SplitInterleave(seps[1..], ts[1..]);
      assert [ts[0]] + ts[1..] == ts;
    }
  }

  /** After the first token of an interleaving comes whitespace or nothing. */
  lemma SpaceAfterToken(seps: seq<string>, ts: seq<string>)
    requires |ts| > 0 && Separators(seps, |ts|)
    ensures var r := Interleave(seps[1..], ts[1..]); r == [] || IsSpace(r[0])
  {
    var r := Interleave(seps[1..], ts[1..]);
    if |ts| > 1 {
      assert |seps[1]| > 0;
      assert r == seps[1] + (ts[1] + Interleave(seps[2..], ts[2..]));
      assert r[0] == seps[1][0];
    } else {
      assert r == seps[1];
    }
  }

  lemma SeparatorsTail(seps: seq<string>, n: nat)
    requires n > 0 && Separators(seps, n)
    ensures Separators(seps[1..], n - 1)
  {
    forall i | 0 < i < n - 1 ensures |seps[1..][i]| > 0 {
      assert seps[1..][i] == seps[i + 1];
    }
  }

  /** A token followed by whitespace, or by nothing, is split off whole. */
  lemma SplitTokenThen(t: string, r: string)
    requires IsToken(t) && (r == [] || IsSpace(r[0]))
    ensures Split(t + r) == [t] + Split(r)
  {
    WordLengthBefore(t, r);
    assert (t + r)[0] == t[0];
    assert (t + r)[..|t|] == t && (t + r)[|t|..] == r;
  }

  /** A word followed by whitespace, or by nothing, is measured as the word. */
  lemma {:induction false} WordLengthBefore(t: string, r: string)
    requires forall i :: 0 <= i < |t| ==> !IsSpace(t[i])
    requires r == [] || IsSpace(r[0])
    ensures WordLength(t + r) == |t|
    decreases |t|
  {
    if |t| == 0 {
      assert t + r == r;
    } else {
      assert (t + r)[1..] == t[1..] + r;
      WordLengthBefore(t[1..], r);
    }
  }

  /** Putting whitespace in front of an interleaving widens its first separator. */
  lemma InterleaveWiden(w: string, seps: seq<string>, ts: seq<string>)
    requires |seps| == |ts| + 1
    ensures Interleave([w + seps[0]] + seps[1..], ts) == w + Interleave(seps, ts)
  {
    var wide := [w + seps[0]] + seps[1..];
    assert wide[1..] == seps[1..];
  }

  /** The separators of a text one whitespace character longer at the front. */
  function Widen(c: char, seps: seq<string>): seq<string>
    requires |seps| > 0
  {
    [[c] + seps[0]] + seps[1..]
  }

  /**
    Conversely, every text is its own tokens interleaved with whitespace
    separators. With SplitInterleave: `split()` returns `ts` exactly when the
    text is `ts` separated by whitespace.
   */
  lemma {:induction false} SplitSeparates(s: string)
    ensures exists seps :: Separators(seps, |Split(s)|) && Interleave(seps, Split(s)) == s
    decreases |s|
  {
    if |s| == 0 {
      var seps := [""];
      assert Split(s) == [];
      assert Separators(seps, |Split(s)|) && Interleave(seps, Split(s)) == s;
    } else if IsSpace(s[0]) {
      SplitSeparates(s[1..]);
      var seps :| Separators(seps, |Split(s[1..])|) && Interleave(seps, Split(s[1..])) == s[1..];
      SeparatesSpace(s, seps);
    } else {
      var k := WordLength(s);
      SplitSeparates(s[k..]);
      var seps :| Separators(seps, |Split(s[k..])|) && Interleave(seps, Split(s[k..])) == s[k..];
      SeparatesWord(s, k, seps);
    }
  }

  lemma SeparatesSpace(s: string, seps: seq<string>)
    requires |s| > 0 && IsSpace(s[0])
    requires Separators(seps, |Split(s[1..])|) && Interleave(seps, Split(s[1..])) == s[1..]
    ensures Separators(Widen(s[0], seps), |Split(s)|) && Interleave(Widen(s[0], seps), Split(s)) == s
  {
    var ts := Split(s);
    var wide := Widen(s[0], seps);
    InterleaveWiden([s[0]], seps, ts);
    assert s == [s[0]] + s[1..];
    assert AllSpace(wide[0]) by {
      forall i | 0 <= i < |wide[0]| ensures IsSpace(wide[0][i]) {
        if i > 0 { assert wide[0][i] == seps[0][i - 1]; }
      }
    }
    assert forall i :: 0 < i < |wide| ==> wide[i] == seps[i];
  }

  lemma SeparatesWord(s: string, k: nat, seps: seq<string>)
    requires |s| > 0 && !IsSpace(s[0]) && k == WordLength(s)
    requires Separators(seps, |Split(s[k..])|) && Interleave(seps, Split(s[k..])) == s[k..]
    ensures Separators([""] + seps, |Split(s)|) && Interleave([""] + seps, Split(s)) == s
  {
    var rest := Split(s[k..]);
    assert Split(s) == [s[..k]] + rest;
    if |rest| > 0 {
      GapBeforeToken(s[k..], seps, rest);
    }
    SeparatorsCons(seps, |rest|);
    InterleaveCons(s[..k], seps, rest);
    assert s == s[..k] + s[k..];
  }

  /** A text that does not start with a token begins with a non-empty separator. */
  lemma GapBeforeToken(s: string, seps: seq<string>, ts: seq<string>)
    requires |ts| > 0 && Separators(seps, |ts|) && IsToken(ts[0])
    requires Interleave(seps, ts) == s
    requires s == [] || IsSpace(s[0])
    ensures |seps[0]| > 0
  {
  }

  lemma SeparatorsCons(seps: seq<string>, n: nat)
    requires Separators(seps, n)
    requires n > 0 ==> |seps[0]| > 0
    ensures Separators([""] + seps, n + 1)
  {
    var wide := [""] + seps;
    assert forall i :: 0 < i < |wide| ==> wide[i] == seps[i - 1];
  }

  lemma InterleaveCons(t: string, seps: seq<string>, ts: seq<string>)
    requires |seps| == |ts| + 1
    ensures Interleave([""] + seps, [t] + ts) == t + Interleave(seps, ts)
  {
    assert ([""] + seps)[1..] == seps && ([t] + ts)[1..] == ts;
    assert "" + t == t;
  }

  /** A text that starts with a non-space has a first token, which starts with the same character. */
  lemma FirstToken(s: string)
    requires |s| > 0 && !IsSpace(s[0])
    ensures |Split(s)| > 0 && Split(s)[0][0] == s[0]
  {
    assert Split(s)[0] == s[..WordLength(s)];
  }

  // ---- case mapping --------------------------------------------------------

  /**
    A model of `c.upper()`: it maps ASCII letters, and the non-ASCII
    characters whose Unicode upper case is made of ASCII letters only (sharp
    s, dotless i, long s and the Latin ligatures U+FB00 to U+FB06). The model
    keeps every other character unchanged.
   */
  function UpperChar(c: char): string {
    if 'a' <= c <= 'z' then [(c as int - 32) as char]
    else if c == '\U{DF}' then "SS"
    else if c == '\U{131}' then "I"
    else if c == '\U{17F}' then "S"
    else if c == '\U{FB00}' then "FF"
    else if c == '\U{FB01}' then "FI"
    else if c == '\U{FB02}' then "FL"
    else if c == '\U{FB03}' then "FFI"
    else if c == '\U{FB04}' then "FFL"
    else if c == '\U{FB05}' || c == '\U{FB06}' then "ST"
    else [c]
  }

  /**
    A model of `c.lower()`: it maps ASCII letters, the Kelvin sign (lower
    case `k`) and the capital I with dot above (`i` and a combining dot). The
    model keeps every other character unchanged.
   */
  function LowerChar(c: char): string {
    if 'A' <= c <= 'Z' then [(c as int + 32) as char]
    else if c == '\U{212A}' then "k"
    else if c == '\U{130}' then "i\U{307}"
    else [c]
  }

  function Upper(s: string): string {
    if |s| == 0 then [] else UpperChar(s[0]) + Upper(s[1..])
  }

  function Lower(s: string): string {
    if |s| == 0 then [] else LowerChar(s[0]) + Lower(s[1..])
  }

  predicate IsAsciiUpper(c: char) { 'A' <= c <= 'Z' }
  predicate IsAsciiLower(c: char) { 'a' <= c <= 'z' }

  /**
    `t` spells the upper-case ASCII word `w` in any mixture of cases:
    every position holds the letter of `w` or its lower-case form.
   */
  predicate SpellsUpper(t: string, w: string) {
    |t| == |w| && forall i :: 0 <= i < |w| ==>
      t[i] == w[i] || (IsAsciiUpper(w[i]) && t[i] == (w[i] as int + 32) as char)
  }

  /** ... and likewise for a lower-case ASCII word. */
  predicate SpellsLower(t: string, w: string) {
    |t| == |w| && forall i :: 0 <= i < |w| ==>
      t[i] == w[i] || (IsAsciiLower(w[i]) && t[i] == (w[i] as int - 32) as char)
  }

  /** `upper()` maps every mixed-case spelling of an upper-case ASCII word to the word. */
  lemma {:induction false} UpperOfSpelling(t: string, w: string)
    requires forall i :: 0 <= i < |w| ==> IsAsciiUpper(w[i])
    requires SpellsUpper(t, w)
    ensures Upper(t) == w
    decreases |w|
  {
    if |w| > 0 {
      UpperOfSpelling(t[1..], w[1..]);
      assert w == [w[0]] + w[1..];
    }
  }

  /** `lower()` maps every mixed-case spelling of a lower-case ASCII word to the word. */
  lemma {:induction false} LowerOfSpelling(t: string, w: string)
    requires forall i :: 0 <= i < |w| ==> IsAsciiLower(w[i])
    requires SpellsLower(t, w)
    ensures Lower(t) == w
    decreases |w|
  {
    if |w| > 0 {
      LowerOfSpelling(t[1..], w[1..]);
      assert w == [w[0]] + w[1..];
    }
  }

  /** Every character is ASCII. */
  predicate IsAscii(t: string) {
    forall i :: 0 <= i < |t| ==> t[i] < '\U{80}'
  }

  /**
    For ASCII text the converse of UpperOfSpelling holds: whatever `upper()`
    maps to `w` is a mixed-case spelling of `w`.
   */
  lemma {:induction false} SpellingOfUpper(t: string, w: string)
    requires IsAscii(t) && Upper(t) == w
    ensures SpellsUpper(t, w)
    decreases |t|
  {
    if |t| > 0 {
      var tail := Upper(t[1..]);
      assert IsAscii(t[1..]);
      SpellingOfUpper(t[1..], tail);
      assert |UpperChar(t[0])| == 1 && w == UpperChar(t[0]) + tail;
      forall i | 0 <= i < |w|
        ensures t[i] == w[i] || (IsAsciiUpper(w[i]) && t[i] == (w[i] as int + 32) as char)
      {
        if i > 0 {
          assert w[i] == tail[i - 1] && t[i] == t[1..][i - 1];
        }
      }
    }
  }

  /** ... and whatever `lower()` maps to `w` is a mixed-case spelling of `w`. */
  lemma {:induction false} SpellingOfLower(t: string, w: string)
    requires IsAscii(t) && Lower(t) == w
    ensures SpellsLower(t, w)
    decreases |t|
  {
    if |t| > 0 {
      var tail := Lower(t[1..]);
      assert IsAscii(t[1..]);
      SpellingOfLower(t[1..], tail);
      assert |LowerChar(t[0])| == 1 && w == LowerChar(t[0]) + tail;
      forall i | 0 <= i < |w|
        ensures t[i] == w[i] || (IsAsciiLower(w[i]) && t[i] == (w[i] as int - 32) as char)
      {
        if i > 0 {
          assert w[i] == tail[i - 1] && t[i] == t[1..][i - 1];
        }
      }
    }
  }
}
