/** Value types and small text utilities shared by every script model. */
module Common {

  /** An optional value; a script global that was never assigned is `None`. */
  datatype Option<+T> = None | Some(value: T) {
    predicate IsFailure() { None? }

    function PropagateFailure<U>(): Option<U>
      requires None?
    {
      None
    }

    function Extract(): T
      requires Some?
    {
      value
    }
  }

  /** The answer of one call into the administrative runtime: it raised an exception or returned a value. */
  datatype Fallible<+T> = Raised | Returned(value: T)

  /** Python's `\d` on byte strings. */
  predicate IsDigit(c: char) { '0' <= c <= '9' }

  /** Python's `\s` on byte strings: space, tab, line feed, vertical tab, form feed, carriage return. */
  predicate IsSpace(c: char) { c == ' ' || '\t' <= c <= '\r' }

  /**
   * The elements of `s` that `keep` accepts (Python's `filter`); `FilterCounts` gives
   * their multiplicity and `FilterAppend` their order.
   */
  function Filter<T>(keep: T -> bool, s: seq<T>): (r: seq<T>)
    ensures |r| <= |s|
    ensures forall i :: 0 <= i < |r| ==> r[i] in s && keep(r[i])
    ensures forall i :: 0 <= i < |s| && keep(s[i]) ==> s[i] in r
  {
    if s == [] then []
    else (if keep(s[0]) then [s[0]] else []) + Filter(keep, s[1..])
  }

  /** Each accepted element is kept as often as it occurs, duplicates included; no other element is kept. */
  lemma {:induction false} FilterCounts<T>(keep: T -> bool, s: seq<T>)
    ensures forall x :: multiset(Filter(keep, s))[x] == if keep(x) then multiset(s)[x] else 0
  {
    if s != [] {
      FilterCounts(keep, s[1..]);
      assert s == [s[0]] + s[1..];
      var head: seq<T> := if keep(s[0]) then [s[0]] else [];
      assert Filter(keep, s) == head + Filter(keep, s[1..]);
      assert multiset(Filter(keep, s)) == multiset(head) + multiset(Filter(keep, s[1..]));
      assert multiset(s) == multiset([s[0]]) + multiset(s[1..]);
    }
  }

  lemma {:induction false} FilterAppend<T>(keep: T -> bool, a: seq<T>, b: seq<T>)
    ensures Filter(keep, a + b) == Filter(keep, a) + Filter(keep, b)
  {
    if a != [] {
      assert (a + b)[1..] == a[1..] + b;
      FilterAppend(keep, a[1..], b);
    } else {
      assert a + b == b;
    }
  }

  /** Concatenation of a list of strings (Python's `''.join`). */
  function Concat(ls: seq<string>): string {
    if ls == [] then [] else ls[0] + Concat(ls[1..])
  }

  /**
   * The longest prefix of `s` that holds none of the `stops` characters.
   * `Token(s, {'='})` is Python's `s.split('=')[0]`.
   */
  function Token(s: string, stops: set<char>): (t: string)
    ensures t <= s
    ensures forall i :: 0 <= i < |t| ==> t[i] !in stops
    ensures |t| < |s| ==> s[|t|] in stops
  {
    if s == [] || s[0] in stops then [] else [s[0]] + Token(s[1..], stops)
  }

  /** A token followed by a stop character (or by nothing) is recovered exactly. */
  lemma TokenOfJoin(t: string, rest: string, stops: set<char>)
    requires forall i :: 0 <= i < |t| ==> t[i] !in stops
    requires rest == [] || rest[0] in stops
    ensures Token(t + rest, stops) == t
  {
    assert (t + rest)[..|t|] == t;
  }

  /** What is left of `s` after the literal prefix `lit`, if `s` starts with it. */
  function StripPrefix(s: string, lit: string): (r: Option<string>)
    ensures r.Some? <==> lit <= s
    ensures r.Some? ==> s == lit + r.value
  {
    if lit <= s then Some(s[|lit|..]) else None
  }

  lemma StripPrefixOfJoin(lit: string, rest: string)
    ensures StripPrefix(lit + rest, lit) == Some(rest)
  {
    assert (lit + rest)[..|lit|] == lit;
    assert (lit + rest)[|lit|..] == rest;
  }

  /** Python's slice `s[k:]` for `k >= 0`: empty when `s` is shorter than `k`. */
  function SliceFrom(s: string, k: nat): (r: string)
    ensures |r| == if k <= |s| then |s| - k else 0
    ensures forall i :: 0 <= i < |r| ==> r[i] == s[k + i]
  {
    if k <= |s| then s[k..] else []
  }

  /** Pieces joined back into one string with a separator between them (Python's `sep.join`). */
  function Join(ws: seq<string>, sep: char): string
    requires ws != []
  {
    if |ws| == 1 then ws[0] else ws[0] + [sep] + Join(ws[1..], sep)
  }

  predicate Free(w: string, sep: char) { forall i :: 0 <= i < |w| ==> w[i] != sep }

  /** Python's `s.split(sep)` for a one-character separator: the pieces between separators, empty pieces included. */
  function Split(s: string, sep: char): (ws: seq<string>)
    ensures ws != []
    ensures Join(ws, sep) == s
    ensures forall i :: 0 <= i < |ws| ==> Free(ws[i], sep)
    decreases |s|
  {
    var w := Token(s, {sep});
    if |w| == |s| then
      assert w == s;
      [s]
    else
      var rest := Split(s[|w| + 1..], sep);
      assert s == w + [sep] + s[|w| + 1..];
      [w] + rest
  }

  /** Splitting a joined list of separator-free pieces gives the pieces back. */
  lemma {:induction false} SplitOfJoin(ws: seq<string>, sep: char)
    requires ws != []
    requires forall i :: 0 <= i < |ws| ==> Free(ws[i], sep)
    ensures Split(Join(ws, sep), sep) == ws
  {
    var s := Join(ws, sep);
    if |ws| == 1 {
      TokenOfJoin(ws[0], [], {sep});
      assert ws[0] + [] == ws[0];
    } else {
      var tail := Join(ws[1..], sep);
      assert s == ws[0] + ([sep] + tail);
      TokenOfJoin(ws[0], [sep] + tail, {sep});
      assert s[|ws[0]| + 1..] == tail;
      SplitOfJoin(ws[1..], sep);
      assert ws == [ws[0]] + ws[1..];
    }
  }

  lemma {:induction false} JoinAppend(a: seq<string>, b: seq<string>, sep: char)
    requires a != [] && b != []
    ensures Join(a + b, sep) == Join(a, sep) + [sep] + Join(b, sep)
    decreases |a|
  {
    if |a| == 1 {
      assert (a + b)[1..] == b;
    } else {
      assert (a + b)[1..] == a[1..] + b;
      JoinAppend(a[1..], b, sep);
    }
  }

  // The lemmas below show that a request string, built by concatenation, is a given
  // list of words joined by single spaces; each covers one concatenated part, with the
  // text built so far (`p`) left abstract.

  lemma {:induction false} JoinSnoc(ws: seq<string>, w: string, sep: char)
    requires ws != []
    ensures Join(ws + [w], sep) == Join(ws, sep) + [sep] + w
    decreases |ws|
  {
    if |ws| == 1 {
      assert (ws + [w])[1..] == [w];
    } else {
      assert (ws + [w])[1..] == ws[1..] + [w];
      JoinSnoc(ws[1..], w, sep);
    }
  }

  /** A part ` a v`: a literal word, then a value. */
  lemma SpacedPair(ws: seq<string>, p: string, a: string, v: string, lit: string)
    requires ws != [] && Join(ws, ' ') == p && lit == " " + a + " "
    ensures Join(ws + [a, v], ' ') == p + lit + v
  {
    JoinSnoc(ws, a, ' ');
    JoinSnoc(ws + [a], v, ' ');
    assert ws + [a] + [v] == ws + [a, v];
  }

  /** A part ` a vr`: a literal word, then a value followed by the text `r`. */
  lemma SpacedPairThen(ws: seq<string>, p: string, a: string, v: string, lit: string, r: string)
    requires ws != [] && Join(ws, ' ') == p && lit == " " + a + " "
    ensures Join(ws + [a, v + r], ' ') == p + lit + v + r
  {
    SpacedPair(ws, p, a, v + r, lit);
  }

  /** A part ` a1 a2 v`, whose literal is written as two concatenated strings. */
  lemma SpacedTriple(ws: seq<string>, p: string, a1: string, a2: string, v: string, lit1: string, lit2: string)
    requires ws != [] && Join(ws, ' ') == p && lit1 == " " + a1 + " " && lit2 == a2 + " "
    ensures Join(ws + [a1, a2, v], ' ') == p + lit1 + lit2 + v
  {
    JoinSnoc(ws, a1, ' ');
    SpacedPair(ws + [a1], p + " " + a1, a2, v, " " + a2 + " ");
    assert ws + [a1] + [a2, v] == ws + [a1, a2, v];
  }

  /** The first part `a1 a2 v`. */
  lemma SpacedStart(a1: string, a2: string, v: string, lit: string)
    requires lit == a1 + " " + a2 + " "
    ensures Join([a1, a2, v], ' ') == lit + v
  {
    SpacedPair([a1], a1, a2, v, " " + a2 + " ");
  }

  /** A part ` a gv`: a literal word, then a value `v` that completes a word begun by the literal `g`. */
  lemma SpacedPairInto(ws: seq<string>, p: string, a: string, g: string, v: string, lit: string)
    requires ws != [] && Join(ws, ' ') == p && lit == " " + a + " " + g
    ensures Join(ws + [a, g + v], ' ') == p + lit + v
  {
    JoinSnoc(ws, a, ' ');
    JoinSnoc(ws + [a], g + v, ' ');
    assert ws + [a] + [g + v] == ws + [a, g + v];
  }

  /** A part ` a1 a2 gv`: two literal words, then a value `v` completing a word begun by `g`. */
  lemma SpacedTripleInto(ws: seq<string>, p: string, a1: string, a2: string, g: string, v: string, lit: string)
    requires ws != [] && Join(ws, ' ') == p && lit == " " + a1 + " " + a2 + " " + g
    ensures Join(ws + [a1, a2, g + v], ' ') == p + lit + v
  {
    JoinSnoc(ws, a1, ' ');
    SpacedPairInto(ws + [a1], p + " " + a1, a2, g, v, " " + a2 + " " + g);
    assert ws + [a1] + [a2, g + v] == ws + [a1, a2, g + v];
  }

  /** Text with no separator continues the last word. */
  lemma JoinExtend(ws: seq<string>, w: string, p: string, x: string, sep: char)
    requires ws != [] && Join(ws + [w], sep) == p
    ensures Join(ws + [w + x], sep) == p + x
  {
    JoinSnoc(ws, w, sep);
    JoinSnoc(ws, w + x, sep);
  }

  /** A last part ` a1 a2` made of two literal words. */
  lemma SpacedEnd(ws: seq<string>, p: string, a1: string, a2: string, lit: string)
    requires ws != [] && Join(ws, ' ') == p && lit == " " + a1 + " " + a2
    ensures Join(ws + [a1, a2], ' ') == p + lit
  {
    SpacedPair(ws, p, a1, a2, " " + a1 + " ");
  }
}
