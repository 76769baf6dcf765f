/**
 * `editConfigProps`: rewriting the exported server properties text with the
 * `KEY=port` lines of a user's properties file.
 *
 * The two regular expressions of the source are written out as scanners:
 * `\S=\d+` (searched for in each user line) and `KEY=\d+` (substituted in the
 * server text, with a maximal digit run). Keys are matched literally and the
 * replacement text is inserted literally.
 */
module PropsRewrite {
  import opened Common

  // ---------------------------------------------------------------------------
  // Reading the user's file: `readlines()` and the `\S=\d+` filter
  // ---------------------------------------------------------------------------

  /** Python's `readlines()`: pieces ending just after each line feed; the last piece may lack one. */
  function Lines(text: string): (ls: seq<string>)
    ensures Concat(ls) == text
    ensures forall i :: 0 <= i < |ls| ==> ls[i] != [] && '\n' !in ls[i][..|ls[i]| - 1]
    ensures forall i :: 0 <= i < |ls| - 1 ==> ls[i][|ls[i]| - 1] == '\n'
    decreases |text|
  {
    if text == [] then []
    else
      var n := Token(text, {'\n'});
      if |n| == |text| then
        assert text[..|text| - 1] == n[..|n| - 1];
        [text]
      else
        var line := text[..|n| + 1];
        assert line[..|line| - 1] == n;
        assert text == line + text[|n| + 1..];
        [line] + Lines(text[|n| + 1..])
  }

  /** `\S=\d` starting at position `i`: a non-whitespace character, `=`, and a digit. */
  predicate AssignmentAt(line: string, i: nat)
    requires i + 2 < |line|
  {
    !IsSpace(line[i]) && line[i + 1] == '=' && IsDigit(line[i + 2])
  }

  /** `regex1.search(line)` for `\S=\d+`, scanning left to right. */
  function IsTargetLine(line: string): bool
    decreases |line|
  {
    |line| >= 3 && (AssignmentAt(line, 0) || IsTargetLine(line[1..]))
  }

  /** The scanner succeeds exactly when `\S=\d` occurs at some position of the line. */
  lemma {:induction false} TargetLineIff(line: string)
    ensures IsTargetLine(line) <==> exists i: nat :: i + 2 < |line| && AssignmentAt(line, i)
    decreases |line|
  {
    if |line| >= 3 {
      TargetLineIff(line[1..]);
      if IsTargetLine(line[1..]) {
        var i: nat :| i + 2 < |line| - 1 && AssignmentAt(line[1..], i);
        assert AssignmentAt(line, i + 1);
      }
      if exists i: nat :: i + 2 < |line| && AssignmentAt(line, i) {
        var i: nat :| i + 2 < |line| && AssignmentAt(line, i);
        if i > 0 {
          assert AssignmentAt(line[1..], i - 1);
        }
      }
    }
  }

  /** The used lines of the user's file, in file order. */
  function TargetLines(lines: seq<string>): seq<string> {
    Filter(IsTargetLine, lines)
  }

  // ---------------------------------------------------------------------------
  // One used line: replacement text and key
  // ---------------------------------------------------------------------------

  /** `line[:-1]`: the line without its last character, whatever that character is. */
  function Replacement(line: string): string {
    if line == [] then [] else line[..|line| - 1]
  }

  /** `s.split('=')[0]`: everything before the first `=`. */
  function KeyOf(s: string): string {
    Token(s, {'='})
  }

  /**
   * For a used line, the replacement is exactly the line minus its last character,
   * and that replacement is its key, then `=`, then whatever followed the first `=`.
   */
  lemma TargetLineShape(line: string)
    requires IsTargetLine(line)
    ensures |Replacement(line)| == |line| - 1
    ensures Replacement(line) + [line[|line| - 1]] == line
    ensures var r := Replacement(line); var k := KeyOf(r);
      |k| < |r| && r[|k|] == '=' && '=' !in k && k == KeyOf(line)
  {
    TargetLineIff(line);
    var i: nat :| i + 2 < |line| && AssignmentAt(line, i);
    var r := Replacement(line);
    assert r == line[..|line| - 1];
    assert r[i + 1] == '=';
    KeyEndsAtFirstEquals(r, i + 1);
    assert line == r + [line[|line| - 1]];
    KeyOfExtend(r, [line[|line| - 1]]);
  }

  /** An `=` at position `j` means the key ends at or before `j`, at an `=`. */
  lemma KeyEndsAtFirstEquals(s: string, j: nat)
    requires j < |s| && s[j] == '='
    ensures |KeyOf(s)| <= j && s[|KeyOf(s)|] == '=' && '=' !in KeyOf(s)
  {
  }

  /** Text after the first `=` does not change the key. */
  lemma KeyOfExtend(s: string, tail: string)
    requires |KeyOf(s)| < |s|
    ensures KeyOf(s + tail) == KeyOf(s)
  {
    var k := KeyOf(s);
    assert s == k + s[|k|..];
    assert s + tail == k + (s[|k|..] + tail);
    TokenOfJoin(k, s[|k|..] + tail, {'='});
  }

  // ---------------------------------------------------------------------------
  // `re.sub(key + '=\d+', repl, contents)`
  // ---------------------------------------------------------------------------

  /** Does `key=<digit>` start at the front of `s`? */
  predicate MatchesAt0(s: string, key: string) {
    |key| + 2 <= |s| && s[..|key|] == key && s[|key|] == '=' && IsDigit(s[|key| + 1])
  }

  /** The length of the run of digits at the front of `s`. */
  function DigitRun(s: string): (n: nat)
    ensures n <= |s|
    ensures forall i :: 0 <= i < n ==> IsDigit(s[i])
    ensures n < |s| ==> !IsDigit(s[n])
  {
    if s != [] && IsDigit(s[0]) then 1 + DigitRun(s[1..]) else 0
  }

  /** The length of the greedy match `key=\d+` at the front of `s`. */
  function MatchLen(s: string, key: string): (n: nat)
    requires MatchesAt0(s, key)
    ensures |key| + 2 <= n <= |s|
    ensures s[..|key|] == key && s[|key|] == '='
    ensures forall i :: |key| + 1 <= i < n ==> IsDigit(s[i])
    ensures n < |s| ==> !IsDigit(s[n])
  {
    var d := s[|key| + 1..];
    assert forall i :: |key| + 1 <= i < |s| ==> s[i] == d[i - (|key| + 1)];
    |key| + 1 + DigitRun(d)
  }

  /**
   * The substitution scanner: left to right, every `key=<maximal digit run>` becomes `repl`,
   * every other character is copied.
   */
  function Rewrite(s: string, key: string, repl: string): string
    decreases |s|
  {
    if s == [] then []
    else if MatchesAt0(s, key) then repl + Rewrite(s[MatchLen(s, key)..], key, repl)
    else [s[0]] + Rewrite(s[1..], key, repl)
  }

  /** A key that never occurs (followed by `=` and a digit) leaves the contents identical. */
  lemma {:induction false} RewriteWithoutOccurrence(s: string, key: string, repl: string)
    requires forall i :: 0 <= i < |s| ==> !MatchesAt0(s[i..], key)
    ensures Rewrite(s, key, repl) == s
    decreases |s|
  {
    if s != [] {
      assert s[0..] == s;
      forall i | 0 <= i < |s| - 1
        ensures !MatchesAt0(s[1..][i..], key)
      {
        assert s[1..][i..] == s[i + 1..];
      }
      RewriteWithoutOccurrence(s[1..], key, repl);
    }
  }

  /**
   * Characters before the first occurrence are kept, the occurrence (with its whole
   * digit run) becomes `repl`, and the scan continues after it.
   */
  lemma {:induction false} RewriteFirstOccurrence(s: string, key: string, repl: string, p: nat)
    requires p < |s| && MatchesAt0(s[p..], key)
    requires forall i :: 0 <= i < p ==> !MatchesAt0(s[i..], key)
    ensures Rewrite(s, key, repl) ==
      s[..p] + repl + Rewrite(s[p + MatchLen(s[p..], key)..], key, repl)
    decreases p
  {
    assert s[0..] == s;
    if p == 0 {
      RewriteReplaces(s, key, repl);
      assert s[..0] == [];
    } else {
      var t := s[1..];
      forall i | 0 <= i < p - 1
        ensures !MatchesAt0(t[i..], key)
      {
        assert t[i..] == s[i + 1..];
      }
      assert t[p - 1..] == s[p..];
      RewriteFirstOccurrence(t, key, repl, p - 1);
      var m := MatchLen(s[p..], key);
      assert t[p - 1 + m..] == s[p + m..];
      RewriteCopiesPrefix(s, key, repl, p, Rewrite(s[p + m..], key, repl));
    }
  }

  /** One copied character in front of a rewrite that begins with `p - 1` copied characters. */
  lemma RewriteCopiesPrefix(s: string, key: string, repl: string, p: nat, after: string)
    requires 0 < p <= |s| && !MatchesAt0(s, key)
    requires Rewrite(s[1..], key, repl) == s[1..][..p - 1] + repl + after
    ensures Rewrite(s, key, repl) == s[..p] + repl + after
  {
    RewriteCopies(s, key, repl);
    ConsPrefix(s, p, repl, after);
  }

  lemma ConsPrefix(s: string, p: nat, x: string, y: string)
    requires 0 < p <= |s|
    ensures [s[0]] + (s[1..][..p - 1] + x + y) == s[..p] + x + y
  {
    assert [s[0]] + s[1..][..p - 1] == s[..p];
  }

  /** Digits in front of `x` lengthen the digit run by exactly their number. */
  lemma {:induction false} DigitRunAppend(d: string, x: string)
    requires forall i :: 0 <= i < |d| ==> IsDigit(d[i])
    ensures DigitRun(d + x) == |d| + DigitRun(x)
  {
    if d != [] {
      assert (d + x)[1..] == d[1..] + x;
      DigitRunAppend(d[1..], x);
    } else {
      assert d + x == x;
    }
  }

  /** `Rewrite` unfolded once where no match starts at the front. */
  lemma RewriteCopies(s: string, key: string, repl: string)
    requires s != [] && !MatchesAt0(s, key)
    ensures Rewrite(s, key, repl) == [s[0]] + Rewrite(s[1..], key, repl)
  {
  }

  /** `Rewrite` unfolded once where a match starts at the front. */
  lemma RewriteReplaces(s: string, key: string, repl: string)
    requires MatchesAt0(s, key)
    ensures Rewrite(s, key, repl) == repl + Rewrite(s[MatchLen(s, key)..], key, repl)
  {
  }

  /** How many leading characters `RewriteKeepsFront` talks about: at most `|key| + 1`. */
  function FrontLen(t: string, key: string): nat {
    if |t| <= |key| then |t| else |key| + 1
  }

  /** `u` agrees with `t` on the first `FrontLen(t, key)` characters, and has `t`'s length when `t` is short. */
  predicate SameFront(t: string, u: string, key: string) {
    var n := FrontLen(t, key);
    n <= |u| && (|t| <= |key| ==> |u| == |t|) && u[..n] == t[..n]
  }

  /** Putting the same character in front of both keeps the fronts the same. */
  lemma SameFrontCons(c: char, t: string, v: string, key: string)
    requires SameFront(t, v, key)
    ensures SameFront([c] + t, [c] + v, key)
  {
    var n := FrontLen([c] + t, key);
    if n > 0 {
      assert ([c] + v)[..n] == [c] + v[..n - 1];
      assert ([c] + t)[..n] == [c] + t[..n - 1];
    }
  }

  /** A replacement that starts with `key=` keeps the front of a text matched at its start. */
  lemma SameFrontReplaced(t: string, key: string, repl: string, after: string)
    requires MatchesAt0(t, key) && key + "=" <= repl
    ensures SameFront(t, repl + after, key)
  {
    var n := FrontLen(t, key);
    assert n == |key| + 1;
    assert (repl + after)[..n] == repl[..n] == key + "=";
    assert t[..n] == t[..|key|] + [t[|key|]];
  }

  /**
   * When the replacement itself starts with `key=`, rewriting leaves the first `|key| + 1`
   * characters of a text in place (and a shorter text unchanged in length).
   */
  lemma {:induction false} RewriteKeepsFront(t: string, key: string, repl: string)
    requires key + "=" <= repl
    ensures var u := Rewrite(t, key, repl); var n := FrontLen(t, key);
      n <= |u| && (|t| <= |key| ==> |u| == |t|) && u[..n] == t[..n]
    decreases |t|
  {
    if t == [] {
    } else if !MatchesAt0(t, key) {
      RewriteCopies(t, key, repl);
      RewriteKeepsFront(t[1..], key, repl);
      SameFrontCons(t[0], t[1..], Rewrite(t[1..], key, repl), key);
      assert [t[0]] + t[1..] == t;
      assert SameFront(t, Rewrite(t, key, repl), key);
    } else {
      RewriteReplaces(t, key, repl);
      SameFrontReplaced(t, key, repl, Rewrite(t[MatchLen(t, key)..], key, repl));
      assert SameFront(t, Rewrite(t, key, repl), key);
    }
  }

  /** Whether a match starts at the front of `[c] + x` depends only on the first `|key| + 1` characters of `x`. */
  lemma FrontDecidesMatch(c: char, t: string, u: string, key: string)
    requires var n := FrontLen(t, key);
      n <= |u| && (|t| <= |key| ==> |u| == |t|) && u[..n] == t[..n]
    ensures MatchesAt0([c] + t, key) <==> MatchesAt0([c] + u, key)
  {
    var n := FrontLen(t, key);
    if |key| + 2 <= |[c] + t| {
      assert n == |key| + 1;
      assert ([c] + t)[..|key| + 2] == [c] + t[..n];
      assert ([c] + u)[..|key| + 2] == [c] + u[..n];
      assert ([c] + t)[..|key|] == ([c] + t)[..|key| + 2][..|key|];
      assert ([c] + u)[..|key|] == ([c] + u)[..|key| + 2][..|key|];
    }
  }

  /** `repl` is exactly `key=` followed by one or more digits. */
  predicate IsAssignmentOf(repl: string, key: string) {
    |key| + 2 <= |repl| && repl[..|key|] == key && repl[|key|] == '=' &&
    forall i :: |key| + 1 <= i < |repl| ==> IsDigit(repl[i])
  }

  /** A well-formed `key=digits` in front of a text that starts with no digit is matched as a whole. */
  lemma AssignmentMatchedWhole(r1: string, key: string, x: string, r2: string)
    requires IsAssignmentOf(r1, key)
    requires x == [] || !IsDigit(x[0])
    ensures Rewrite(r1 + x, key, r2) == r2 + Rewrite(x, key, r2)
  {
    var y := r1 + x;
    assert y[..|key|] == r1[..|key|] == key;
    assert MatchesAt0(y, key);
    assert y[|key| + 1..] == r1[|key| + 1..] + x;
    DigitRunAppend(r1[|key| + 1..], x);
    assert DigitRun(x) == 0;
    assert y[|r1|..] == x;
  }

  /**
   * Rewriting the same key twice: when the first replacement is a well-formed
   * `key=digits`, the second rewrite finds exactly the places the first one wrote,
   * so only the second replacement survives.
   */
  lemma {:induction false} RewriteTwice(s: string, key: string, r1: string, r2: string)
    requires IsAssignmentOf(r1, key)
    ensures Rewrite(Rewrite(s, key, r1), key, r2) == Rewrite(s, key, r2)
    decreases |s|
  {
    assert r1[..|key| + 1] == key + "=";
    if s == [] {
    } else if MatchesAt0(s, key) {
      var t := s[MatchLen(s, key)..];
      var x := Rewrite(t, key, r1);
      RewriteKeepsFront(t, key, r1);
      assert t != [] ==> x[..1] == t[..1] && t[0] == s[MatchLen(s, key)];
      AssignmentMatchedWhole(r1, key, x, r2);
      RewriteTwice(t, key, r1, r2);
    } else {
      var x := Rewrite(s[1..], key, r1);
      RewriteKeepsFront(s[1..], key, r1);
      FrontDecidesMatch(s[0], s[1..], x, key);
      assert [s[0]] + s[1..] == s;
      assert ([s[0]] + x)[1..] == x;
      RewriteTwice(s[1..], key, r1, r2);
    }
  }

  /**
   * Matching is not anchored: in a server text holding a single assignment (no `=`
   * outside it), `key` occurring as the tail of a longer key (`ADDRESS` inside
   * `SOAP_ADDRESS=8880`) rewrites the longer key's value too; the characters around
   * the match are kept.
   */
  lemma LongerKeyRewritten(prefix: string, key: string, digits: string, post: string, repl: string)
    requires '=' !in prefix && '=' !in key && '=' !in post
    requires digits != [] && forall i :: 0 <= i < |digits| ==> IsDigit(digits[i])
    requires post == [] || !IsDigit(post[0])
    ensures Rewrite(prefix + key + "=" + digits + post, key, repl) == prefix + repl + post
  {
    var s := prefix + key + "=" + digits + post;
    var p := |prefix|;
    assert s[p + |key|] == '=';
    forall i | 0 <= i < p
      ensures !MatchesAt0(s[i..], key)
    {
      assert s[i + |key|] == (prefix + key)[i + |key|];
    }
    assert s[p..] == key + "=" + digits + post;
    assert s[p..][..|key|] == key;
    assert s[p..][|key| + 1..] == digits + post;
    DigitRunAppend(digits, post);
    assert MatchLen(s[p..], key) == |key| + 1 + |digits|;
    RewriteFirstOccurrence(s, key, repl, p);
    assert s[p + |key| + 1 + |digits|..] == post;
    forall i | 0 <= i < |post|
      ensures !MatchesAt0(post[i..], key)
    {
      if i + |key| < |post| {
        assert post[i..][|key|] == post[i + |key|];
      }
    }
    RewriteWithoutOccurrence(post, key, repl);
    assert s[..p] == prefix;
  }

  // ---------------------------------------------------------------------------
  // The whole edit
  // ---------------------------------------------------------------------------

  /** One pass of the loop body: `contents1 = re.sub(key + '=\d+', line[:-1], contents1)`. */
  function ApplyLine(contents: string, line: string): string {
    var repl := Replacement(line);
    Rewrite(contents, KeyOf(repl), repl)
  }

  /** The used lines applied in file order, each to the previous result. */
  function ApplyLines(lines: seq<string>, contents: string): string {
    if lines == [] then contents
    else ApplyLine(ApplyLines(lines[..|lines| - 1], contents), lines[|lines| - 1])
  }

  /** The text `editConfigProps` writes back over the server properties file. */
  function Edited(newProps: string, serverProps: string): string {
    ApplyLines(TargetLines(Lines(newProps)), serverProps)
  }

  /** The loop of `editConfigProps`: reads both files, rewrites, and returns the text it writes back. */
  method EditConfigProps(serverProps: string, newProps: string) returns (written: string)
    ensures written == Edited(newProps, serverProps)
  {
    var targets := TargetLines(Lines(newProps));
    var contents := serverProps;
    var i := 0;
    while i < |targets|
      invariant 0 <= i <= |targets|
      invariant contents == ApplyLines(targets[..i], serverProps)
    {
      var line := targets[i];
      var stripped := Replacement(line);
      var key := KeyOf(stripped);
      contents := Rewrite(contents, key, stripped);
      ApplyLinesStep(targets, i, serverProps);
      i := i + 1;
    }
    assert targets[..|targets|] == targets;
    written := contents;
  }

  /** One more line of the loop. */
  lemma ApplyLinesStep(lines: seq<string>, i: nat, contents: string)
    requires i < |lines|
    ensures ApplyLines(lines[..i + 1], contents) == ApplyLine(ApplyLines(lines[..i], contents), lines[i])
  {
    assert lines[..i + 1][..i] == lines[..i];
  }

  /** Lines are applied one after another: a later group of lines sees the result of the earlier group. */
  lemma {:induction false} ApplyLinesAppend(a: seq<string>, b: seq<string>, contents: string)
    ensures ApplyLines(a + b, contents) == ApplyLines(b, ApplyLines(a, contents))
    decreases |b|
  {
    if b == [] {
      assert a + b == a;
    } else {
      assert (a + b)[..|a + b| - 1] == a + b[..|b| - 1];
      ApplyLinesAppend(a, b[..|b| - 1], contents);
    }
  }

  /** A line that does not match `\S=\d+` has no effect, wherever it stands in the file. */
  lemma UnusedLineHasNoEffect(before: seq<string>, line: string, after: seq<string>, contents: string)
    requires !IsTargetLine(line)
    ensures ApplyLines(TargetLines(before + [line] + after), contents) ==
            ApplyLines(TargetLines(before + after), contents)
  {
    FilterAppend(IsTargetLine, before + [line], after);
    FilterAppend(IsTargetLine, before, [line]);
    FilterAppend(IsTargetLine, before, after);
    assert Filter(IsTargetLine, [line]) == [];
    assert TargetLines(before) + [] == TargetLines(before);
  }

  /**
   * Two used lines for the same key: when the earlier one is a well-formed
   * `KEY=digits` line, the later line's value is what remains.
   */
  lemma LaterLineWins(earlier: string, later: string, contents: string)
    requires KeyOf(Replacement(earlier)) == KeyOf(Replacement(later))
    requires IsAssignmentOf(Replacement(earlier), KeyOf(Replacement(earlier)))
    ensures ApplyLines([earlier, later], contents) == ApplyLines([later], contents)
  {
    assert [earlier, later][..1] == [earlier];
    assert ([] + [later]) == [later];
    RewriteTwice(contents, KeyOf(Replacement(earlier)), Replacement(earlier), Replacement(later));
  }

  /** A user file holding a single used line applies just that line. */
  lemma ApplySingleLine(line: string, contents: string)
    ensures ApplyLines([line], contents) == ApplyLine(contents, line)
  {
    assert [line][..0] == [];
  }

  /** The key of `key=...` is `key` when `key` holds no `=`. */
  lemma KeyOfAssignment(key: string, rest: string)
    requires '=' !in key
    ensures KeyOf(key + "=" + rest) == key
  {
    assert key + "=" + rest == key + ("=" + rest);
    TokenOfJoin(key, "=" + rest, {'='});
  }

  /** `key=<digits><post>` rewritten with `repl` gives `repl` followed by `post`. */
  lemma RewriteAssignment(key: string, current: string, post: string, repl: string)
    requires '=' !in key && '=' !in post
    requires current != [] && forall i :: 0 <= i < |current| ==> IsDigit(current[i])
    requires post == [] || !IsDigit(post[0])
    ensures Rewrite(key + "=" + current + post, key, repl) == repl + post
  {
    LongerKeyRewritten("", key, current, post, repl);
    assert "" + key == key;
    assert "" + repl == repl;
  }

  /**
   * An earlier line for the same key whose replacement no longer holds `key=<digit>`
   * (`PORT=x A=1`) is not overridden by a later line: the later rewrite finds nothing.
   */
  lemma EarlierLineWithoutValueSticks(earlier: string, later: string, key: string, current: string)
    requires KeyOf(Replacement(earlier)) == key && KeyOf(Replacement(later)) == key && '=' !in key
    requires forall i :: 0 <= i < |Replacement(earlier)| ==> !MatchesAt0(Replacement(earlier)[i..], key)
    requires current != [] && forall i :: 0 <= i < |current| ==> IsDigit(current[i])
    ensures ApplyLines([earlier, later], key + "=" + current) == Replacement(earlier)
  {
    var r1 := Replacement(earlier);
    RewriteAssignment(key, current, "", r1);
    assert key + "=" + current + "" == key + "=" + current;
    assert r1 + "" == r1;
    ApplySingleLine(earlier, key + "=" + current);
    assert [earlier, later][..1] == [earlier];
    RewriteWithoutOccurrence(r1, key, Replacement(later));
  }

  /**
   * The user's file as a single line that ends in a line feed rewrites the value of a
   * server text holding that single assignment (no `=` after it) to exactly its digits.
   */
  lemma SingleLineEdit(key: string, digits: string, current: string, post: string)
    requires key != [] && !IsSpace(key[|key| - 1]) && '=' !in key && '\n' !in key
    requires digits != [] && forall i :: 0 <= i < |digits| ==> IsDigit(digits[i])
    requires current != [] && forall i :: 0 <= i < |current| ==> IsDigit(current[i])
    requires '=' !in post && (post == [] || !IsDigit(post[0]))
    ensures Edited(key + "=" + digits + "\n", key + "=" + current + post) == key + "=" + digits + post
  {
    var line := key + "=" + digits + "\n";
    var repl := key + "=" + digits;
    SingleLineShape(key, digits + "\n", line);
    assert line == repl + "\n";
    assert Replacement(line) == repl;
    KeyOfAssignment(key, digits);
    ApplySingleLine(line, key + "=" + current + post);
    RewriteAssignment(key, current, post, repl);
  }

  /**
   * The last character is dropped blindly: a final line with no line feed loses its
   * last digit (`PORT=9080` at the end of the file writes `PORT=908`).
   */
  lemma FinalLineLosesLastDigit(key: string, digits: string, current: string, post: string)
    requires key != [] && !IsSpace(key[|key| - 1]) && '=' !in key && '\n' !in key
    requires digits != [] && forall i :: 0 <= i < |digits| ==> IsDigit(digits[i])
    requires current != [] && forall i :: 0 <= i < |current| ==> IsDigit(current[i])
    requires '=' !in post && (post == [] || !IsDigit(post[0]))
    ensures Edited(key + "=" + digits, key + "=" + current + post) ==
            key + "=" + digits[..|digits| - 1] + post
  {
    var line := key + "=" + digits;
    var repl := key + "=" + digits[..|digits| - 1];
    SingleLineShape(key, digits, line);
    assert line == repl + [digits[|digits| - 1]];
    assert Replacement(line) == repl;
    KeyOfAssignment(key, digits[..|digits| - 1]);
    ApplySingleLine(line, key + "=" + current + post);
    RewriteAssignment(key, current, post, repl);
  }

  /** A one-line user file `key=<digit>...` with no line feed before its last character is read as that single used line. */
  lemma SingleLineShape(key: string, rest: string, line: string)
    requires line == key + "=" + rest
    requires key != [] && !IsSpace(key[|key| - 1]) && '\n' !in key
    requires rest != [] && IsDigit(rest[0])
    requires '\n' !in rest[..|rest| - 1]
    ensures TargetLines(Lines(line)) == [line]
  {
    assert AssignmentAt(line, |key| - 1);
    TargetLineIff(line);
    forall i | 0 <= i < |line| - 1
      ensures line[i] != '\n'
    {
      if i < |key| {
        assert line[i] == key[i];
      } else if i > |key| {
        assert line[i] == rest[..|rest| - 1][i - |key| - 1];
      }
    }
    SingleLine(line);
    assert [line][1..] == [];
  }

  /** Text with no line feed before its last character is one line. */
  lemma SingleLine(line: string)
    requires line != []
    requires forall i :: 0 <= i < |line| - 1 ==> line[i] != '\n'
    ensures Lines(line) == [line]
  {
    var n := Token(line, {'\n'});
    assert |n| >= |line| - 1;
    if |n| < |line| {
      assert |n| + 1 == |line|;
      assert line[..|n| + 1] == line;
      assert Lines(line[|n| + 1..]) == [];
    }
  }
}
