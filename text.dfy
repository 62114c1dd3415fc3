/** String operations of JavaScript and Python that the keep-alive logic uses:
    `split`, `filter`, `trim`/`strip`, `rstrip`, `startsWith`, `includes` and
    Python's `str.splitlines`. Strings are sequences of Unicode scalar values. */
module Text {
  import opened Wrappers

  /** JavaScript truthiness of an optional string: present and not empty. */
  predicate Truthy(o: Option<string>) {
    o.Some? && o.value != []
  }

  // ---------------------------------------------------------------------
  // Splitting on one separator character
  // ---------------------------------------------------------------------

  /** `s.split(sep)` for a one-character separator: k separators give k + 1
      pieces, and no piece contains the separator. */
  function Split(s: string, sep: char): (parts: seq<string>)
    ensures |parts| >= 1
    ensures forall i :: 0 <= i < |parts| ==> sep !in parts[i]
    decreases |s|
  {
    if s == [] then [[]]
    else
      var init := Split(s[..|s| - 1], sep);
      var c := s[|s| - 1];
      if c == sep then init + [[]]
      else init[..|init| - 1] + [init[|init| - 1] + [c]]
  }

  /** The pieces joined back together with `sep` between them. */
  function Join(parts: seq<string>, sep: char): string
    requires |parts| >= 1
  {
    if |parts| == 1 then parts[0]
    else Join(parts[..|parts| - 1], sep) + [sep] + parts[|parts| - 1]
  }

  lemma JoinExtendLast(prefix: seq<string>, x: string, c: char, sep: char)
    ensures Join(prefix + [x + [c]], sep) == Join(prefix + [x], sep) + [c]
  {
    if prefix != [] {
      assert (prefix + [x + [c]])[..|prefix|] == prefix;
      assert (prefix + [x])[..|prefix|] == prefix;
    }
  }

  /** Joining the pieces of a split gives back the original string. */
  lemma {:induction false} JoinSplit(s: string, sep: char)
    ensures Join(Split(s, sep), sep) == s
  {
    if s != [] {
      var s' := s[..|s| - 1];
      var init := Split(s', sep);
      JoinSplit(s', sep);
      var c := s[|s| - 1];
      assert s == s' + [c];
      if c == sep {
        assert Split(s, sep) == init + [[]];
        assert (init + [[]])[..|init|] == init;
        assert Join(init + [[]], sep) == Join(init, sep) + [sep] + [];
      } else {
        var prefix := init[..|init| - 1];
        var last := init[|init| - 1];
        assert Split(s, sep) == prefix + [last + [c]];
        assert init == prefix + [last];
        JoinExtendLast(prefix, last, c, sep);
      }
    }
  }

  /** Appending text free of the separator only extends the last piece. */
  lemma {:induction false} SplitAppendNoSep(a: string, t: string, sep: char)
    requires sep !in t
    ensures var pa := Split(a, sep);
            Split(a + t, sep) == pa[..|pa| - 1] + [pa[|pa| - 1] + t]
    decreases |t|
  {
    var pa := Split(a, sep);
    if t == [] {
      assert a + t == a;
      assert pa[|pa| - 1] + t == pa[|pa| - 1];
      assert pa == pa[..|pa| - 1] + [pa[|pa| - 1]];
    } else {
      var t' := t[..|t| - 1];
      SplitAppendNoSep(a, t', sep);
      assert (a + t)[..|a + t| - 1] == a + t';
      assert pa[|pa| - 1] + t' + [t[|t| - 1]] == pa[|pa| - 1] + t;
    }
  }

  /** Appending a separator opens a new, empty, last piece. */
  lemma SplitAppendSep(a: string, sep: char)
    ensures Split(a + [sep], sep) == Split(a, sep) + [[]]
  {
    assert (a + [sep])[..|a|] == a;
  }

  /** The join of two or more pieces starts with the first two and the
      separator between them. */
  lemma {:induction false} JoinStartsWith(parts: seq<string>, sep: char)
    requires |parts| >= 2
    ensures StartsWith(Join(parts, sep), parts[0] + [sep] + parts[1])
    decreases |parts|
  {
    if |parts| > 2 {
      var init := parts[..|parts| - 1];
      JoinStartsWith(init, sep);
      var p := parts[0] + [sep] + parts[1];
      assert init[0] == parts[0] && init[1] == parts[1];
      assert Join(parts, sep)[..|p|] == Join(init, sep)[..|p|];
    }
  }

  /** In the join of two or more pieces, the second piece runs up to the end
      of the string or up to a separator. */
  lemma {:induction false} JoinSecondEnds(parts: seq<string>, sep: char)
    requires |parts| >= 2
    ensures var n := |parts[0]| + 1 + |parts[1]|;
            n == |Join(parts, sep)| || (n < |Join(parts, sep)| && Join(parts, sep)[n] == sep)
    decreases |parts|
  {
    if |parts| > 2 {
      var init := parts[..|parts| - 1];
      JoinSecondEnds(init, sep);
      assert init[0] == parts[0] && init[1] == parts[1];
      var j := Join(init, sep);
      assert Join(parts, sep) == j + [sep] + parts[|parts| - 1];
    }
  }

  /** A string without the separator is a single piece. */
  lemma SplitNoSep(s: string, sep: char)
    requires sep !in s
    ensures Split(s, sep) == [s]
  {
    SplitAppendNoSep([], s, sep);
    assert [] + s == s;
  }

  /** A separator-free line written after `a` and a separator, and followed by a
      separator, becomes the second-to-last piece, with an empty piece after it. */
  lemma SplitAppendLine(a: string, line: string, sep: char)
    requires sep !in line
    ensures Split(a + [sep] + line + [sep], sep) == Split(a, sep) + [line, []]
  {
    SplitAppendSep(a, sep);
    SplitAppendNoSep(a + [sep], line, sep);
    var pa := Split(a, sep) + [[]];
    assert pa[..|pa| - 1] == Split(a, sep);
    assert [] + line == line;
    SplitAppendSep(a + [sep] + line, sep);
  }

  // ---------------------------------------------------------------------
  // JavaScript's `text.split(/\r?\n/)`
  // ---------------------------------------------------------------------

  /** Drops one carriage return from the end of a piece. */
  function DropCR(p: string): string {
    if |p| > 0 && p[|p| - 1] == '\r' then p[..|p| - 1] else p
  }

  /** `text.split(/\r?\n/)`: split at each line feed, taking one carriage return
      before it along with it; the last piece keeps any carriage return it ends
      with, since no line feed follows it. */
  function SplitCrLf(s: string): (lines: seq<string>)
    ensures |lines| == |Split(s, '\n')| >= 1
    ensures forall i :: 0 <= i < |lines| ==> '\n' !in lines[i]
  {
    var parts := Split(s, '\n');
    seq(|parts|, i requires 0 <= i < |parts| =>
      if i < |parts| - 1 then DropCR(parts[i]) else parts[i])
  }

  /** The line written after a line feed and followed by one comes back as the
      second-to-last piece, followed by an empty one. */
  lemma SplitCrLfAppendLine(a: string, line: string)
    requires '\n' !in line
    requires line == [] || line[|line| - 1] != '\r'
    ensures var lines := SplitCrLf(a + ['\n'] + line + ['\n']);
            |lines| >= 2 && lines[|lines| - 2] == line && lines[|lines| - 1] == []
  {
    SplitAppendLine(a, line, '\n');
  }

  // ---------------------------------------------------------------------
  // Filtering
  // ---------------------------------------------------------------------

  /** `xs.filter(p)`: the elements satisfying `p`, in their order. */
  function Filter<T>(p: T -> bool, xs: seq<T>): (r: seq<T>)
    ensures |r| <= |xs|
    ensures forall i :: 0 <= i < |r| ==> r[i] in xs && p(r[i])
    ensures forall i :: 0 <= i < |xs| && p(xs[i]) ==> xs[i] in r
    decreases |xs|
  {
    if xs == [] then []
    else
      var init := xs[..|xs| - 1];
      assert xs == init + [xs[|xs| - 1]];
      Filter(p, init) + (if p(xs[|xs| - 1]) then [xs[|xs| - 1]] else [])
  }

  lemma FilterSnoc<T>(p: T -> bool, xs: seq<T>, y: T)
    ensures Filter(p, xs + [y]) == Filter(p, xs) + (if p(y) then [y] else [])
  {
    assert (xs + [y])[..|xs|] == xs;
  }

  /** Every element of `xs` after index `k` fails `p`. */
  predicate DroppedAfter<T>(p: T -> bool, xs: seq<T>, k: nat) {
    forall j :: k < j < |xs| ==> !p(xs[j])
  }

  /** The last element of the filtered sequence is the last element of `xs`
      that satisfies `p`: everything after it fails `p`. */
  lemma {:induction false} FilterLast<T>(p: T -> bool, xs: seq<T>)
    requires Filter(p, xs) != []
    ensures exists k :: 0 <= k < |xs| && xs[k] == Filter(p, xs)[|Filter(p, xs)| - 1] && p(xs[k]) &&
              DroppedAfter(p, xs, k)
    decreases |xs|
  {
    var n := |xs|;
    var init, y := xs[..n - 1], xs[n - 1];
    assert xs == init + [y];
    FilterSnoc(p, init, y);
    var r := Filter(p, xs);
    if p(y) {
      assert r[|r| - 1] == xs[n - 1];
      assert DroppedAfter(p, xs, n - 1);
    } else {
      assert r == Filter(p, init);
      FilterLast(p, init);
      var k :| 0 <= k < |init| && init[k] == r[|r| - 1] && p(init[k]) && DroppedAfter(p, init, k);
      assert DroppedAfter(p, xs, k) by {
        forall j | k < j < n
          ensures !p(xs[j])
        {
          if j < n - 1 {
            assert xs[j] == init[j];
          }
        }
      }
      assert xs[k] == init[k];
    }
  }

  /** A sequence whose last two elements are `x`, which `p` keeps, and `y`, which
      it drops, filters to a sequence ending in `x`. */
  lemma FilterEndsWith<T>(p: T -> bool, xs: seq<T>)
    requires |xs| >= 2 && p(xs[|xs| - 2]) && !p(xs[|xs| - 1])
    ensures var r := Filter(p, xs); |r| > 0 && r[|r| - 1] == xs[|xs| - 2]
  {
    var n := |xs|;
    var a, x, y := xs[..n - 2], xs[n - 2], xs[n - 1];
    assert xs == (a + [x]) + [y];
    FilterSnoc(p, a + [x], y);
    FilterSnoc(p, a, x);
  }

  /** JavaScript's `filter(Boolean)` on strings keeps the non-empty ones. */
  predicate NonEmpty(s: string) {
    s != []
  }

  // ---------------------------------------------------------------------
  // Whitespace, trimming, prefixes
  // ---------------------------------------------------------------------

  /** ECMAScript's WhiteSpace and LineTerminator code points, which
      `String.prototype.trim` removes. */
  predicate IsJsWhitespace(c: char) {
    var n := c as int;
    n == 0x09 || n == 0x0A || n == 0x0B || n == 0x0C || n == 0x0D || n == 0x20 ||
    n == 0xA0 || n == 0x1680 || (0x2000 <= n <= 0x200A) || n == 0x2028 || n == 0x2029 ||
    n == 0x202F || n == 0x205F || n == 0x3000 || n == 0xFEFF
  }

  /** The characters for which Python's `str.isspace` holds, which `str.strip`
      removes. */
  predicate IsPyWhitespace(c: char) {
    var n := c as int;
    (0x09 <= n <= 0x0D) || (0x1C <= n <= 0x20) || n == 0x85 || n == 0xA0 || n == 0x1680 ||
    (0x2000 <= n <= 0x200A) || n == 0x2028 || n == 0x2029 || n == 0x202F || n == 0x205F || n == 0x3000
  }

  /** The line boundaries of Python's `str.splitlines`; a carriage return
      followed by a line feed counts as one boundary. */
  predicate IsPyLineBoundary(c: char) {
    var n := c as int;
    n == 0x0A || n == 0x0B || n == 0x0C || n == 0x0D || (0x1C <= n <= 0x1E) || n == 0x85 ||
    n == 0x2028 || n == 0x2029
  }

  /** Removes the leading characters that satisfy `drop`. */
  function TrimStart(s: string, drop: char -> bool): (r: string)
    ensures |r| <= |s| && r == s[|s| - |r|..]
    ensures r == [] || !drop(r[0])
    ensures forall i :: 0 <= i < |s| - |r| ==> drop(s[i])
    decreases |s|
  {
    if s != [] && drop(s[0]) then
      var r := TrimStart(s[1..], drop);
      assert s[1..][|s| - 1 - |r|..] == s[|s| - |r|..];
      assert forall i :: 1 <= i < |s| - |r| ==> s[i] == s[1..][i - 1];
      r
    else s
  }

  /** Removes the trailing characters that satisfy `drop`; with `drop` the
      letter Z this is Python's `rstrip('Z')`. */
  function TrimEnd(s: string, drop: char -> bool): (r: string)
    ensures |r| <= |s| && r == s[..|r|]
    ensures r == [] || !drop(r[|r| - 1])
    ensures forall i :: |r| <= i < |s| ==> drop(s[i])
    decreases |s|
  {
    if s != [] && drop(s[|s| - 1]) then TrimEnd(s[..|s| - 1], drop) else s
  }

  /** `trim()` / `strip()`: both ends. */
  function Trim(s: string, drop: char -> bool): string {
    TrimEnd(TrimStart(s, drop), drop)
  }

  /** A string with no character to drop is left as it is. */
  lemma TrimNothing(s: string, drop: char -> bool)
    requires forall i :: 0 <= i < |s| ==> !drop(s[i])
    ensures Trim(s, drop) == s
  {
    assert TrimStart(s, drop) == s;
  }

  /** Concatenation is associative; stated on its own so that proofs in a
      large context can use it without searching for it. */
  lemma ConcatAssoc<T>(p: seq<T>, x: seq<T>, y: seq<T>)
    ensures p + (x + y) == (p + x) + y
  {
  }

  /** Dropping a prefix of the left part of a concatenation. */
  lemma DropFromConcat<T>(a: seq<T>, b: seq<T>, k: nat)
    requires k <= |a|
    ensures (a + b)[k..] == a[k..] + b
  {
  }

  /** Every character of `s` is one `drop` removes. */
  predicate AllDropped(s: string, drop: char -> bool) {
    forall i :: 0 <= i < |s| ==> drop(s[i])
  }

  /** A run of dropped characters in front does not survive `TrimStart`. */
  lemma {:induction false} TrimStartDropsPrefix(pre: string, s: string, drop: char -> bool)
    requires AllDropped(pre, drop)
    ensures TrimStart(pre + s, drop) == TrimStart(s, drop)
    decreases |pre|
  {
    if pre == [] {
      assert pre + s == s;
    } else {
      TrimStartDropsPrefix(pre[1..], s, drop);
      assert (pre + s)[0] == pre[0] && (pre + s)[1..] == pre[1..] + s;
    }
  }

  /** A run of dropped characters at the end does not survive `TrimEnd`. */
  lemma {:induction false} TrimEndDropsSuffix(s: string, post: string, drop: char -> bool)
    requires AllDropped(post, drop)
    ensures TrimEnd(s + post, drop) == TrimEnd(s, drop)
    decreases |post|
  {
    if post == [] {
      assert s + post == s;
    } else {
      var post' := post[..|post| - 1];
      TrimEndDropsSuffix(s, post', drop);
      assert (s + post)[|s + post| - 1] == post[|post| - 1];
      assert (s + post)[..|s + post| - 1] == s + post';
    }
  }

  /** A text made only of dropped characters trims to nothing. */
  lemma {:induction false} TrimStartAllDropped(s: string, drop: char -> bool)
    requires AllDropped(s, drop)
    ensures TrimStart(s, drop) == []
    decreases |s|
  {
    if s != [] {
      TrimStartAllDropped(s[1..], drop);
    }
  }

  /** Trimming a text padded on both sides with dropped characters gives back
      the text, when its own ends are kept. */
  lemma TrimPadded(pre: string, s: string, post: string, drop: char -> bool)
    requires AllDropped(pre, drop) && AllDropped(post, drop)
    requires forall i :: 0 <= i < |s| ==> !drop(s[i])
    ensures Trim(pre + s + post, drop) == s
  {
    var sp := s + post;
    assert pre + s + post == pre + sp;
    TrimStartDropsPrefix(pre, sp, drop);
    if s == [] {
      assert sp == post;
      TrimStartAllDropped(post, drop);
    } else {
      assert sp[0] == s[0];
      assert TrimStart(sp, drop) == sp;
      TrimEndDropsSuffix(s, post, drop);
      assert TrimEnd(s, drop) == s;
    }
  }

  /** JavaScript's `s.replace(/Z$/, '')`: one trailing Z is removed. */
  function DropOneZ(s: string): (r: string)
    ensures s != [] && s[|s| - 1] == 'Z' ==> r + "Z" == s
    ensures (s == [] || s[|s| - 1] != 'Z') ==> r == s
  {
    if s != [] && s[|s| - 1] == 'Z' then s[..|s| - 1] else s
  }

  predicate IsZ(c: char) {
    c == 'Z'
  }

  predicate StartsWith(s: string, prefix: string) {
    |prefix| <= |s| && s[..|prefix|] == prefix
  }

  /** `s.includes(t)`. */
  predicate Contains(s: string, t: string)
    decreases |s|
  {
    StartsWith(s, t) || (s != [] && Contains(s[1..], t))
  }

  // ---------------------------------------------------------------------
  // Python's `str.splitlines`
  // ---------------------------------------------------------------------

  predicate NoLineBoundary(s: string) {
    forall i :: 0 <= i < |s| ==> !IsPyLineBoundary(s[i])
  }

  /** Splits `s` into lines, `cur` being the part of the current line already
      read: a final line is produced only if it is not empty, as
      `str.splitlines` drops the empty string after a trailing boundary. */
  function SplitLinesFrom(s: string, cur: string): (lines: seq<string>)
    requires NoLineBoundary(cur)
    ensures forall i :: 0 <= i < |lines| ==> NoLineBoundary(lines[i])
    decreases |s|
  {
    if s == [] then (if cur == [] then [] else [cur])
    else if s[0] == '\r' && |s| >= 2 && s[1] == '\n' then [cur] + SplitLinesFrom(s[2..], [])
    else if IsPyLineBoundary(s[0]) then [cur] + SplitLinesFrom(s[1..], [])
    else SplitLinesFrom(s[1..], cur + [s[0]])
  }

  /** `text.splitlines()`. */
  function SplitLines(s: string): (lines: seq<string>)
    ensures forall i :: 0 <= i < |lines| ==> NoLineBoundary(lines[i])
  {
    SplitLinesFrom(s, [])
  }

  /** A boundary-free line followed by a line feed completes the current line. */
  lemma {:induction false} SplitLinesOneLine(line: string, cur: string)
    requires NoLineBoundary(cur) && NoLineBoundary(line)
    ensures SplitLinesFrom(line + "\n", cur) == [cur + line]
    decreases |line|
  {
    if line == [] {
      assert [] + "\n" == "\n";
      assert cur + [] == cur;
    } else {
      assert (line + "\n")[1..] == line[1..] + "\n";
      SplitLinesOneLine(line[1..], cur + [line[0]]);
      assert cur + [line[0]] + line[1..] == cur + line;
    }
  }

  /** Text that ends at a line boundary can be split on its own and the rest
      split after it, unless the rest starts with the line feed of a CR LF. */
  lemma {:induction false} SplitLinesFromAppend(s: string, t: string, cur: string)
    requires NoLineBoundary(cur)
    requires (s == [] && cur == []) || (s != [] && IsPyLineBoundary(s[|s| - 1]))
    requires t == [] || t[0] != '\n'
    ensures SplitLinesFrom(s + t, cur) == SplitLinesFrom(s, cur) + SplitLinesFrom(t, [])
    decreases |s|
  {
    if s == [] {
      assert s + t == t;
    } else if t == [] {
      assert s + t == s;
      assert SplitLinesFrom(t, []) == [];
    } else if s[0] == '\r' && |s| >= 2 && s[1] == '\n' {
      assert (s + t)[2..] == s[2..] + t;
      SplitLinesFromAppend(s[2..], t, []);
    } else if IsPyLineBoundary(s[0]) {
      assert (s + t)[1..] == s[1..] + t;
      if |s| == 1 {
        assert s[1..] + t == t;
        assert SplitLinesFrom(s, cur) == [cur];
      } else {
        SplitLinesFromAppend(s[1..], t, []);
      }
    } else {
      assert (s + t)[1..] == s[1..] + t;
      SplitLinesFromAppend(s[1..], t, cur + [s[0]]);
    }
  }

  /** A boundary-free, non-empty line written after text that is empty or ends
      at a line boundary, and followed by a line feed, is the text's new last line. */
  lemma SplitLinesAppendLine(text: string, line: string)
    requires text == [] || IsPyLineBoundary(text[|text| - 1])
    requires line != [] && NoLineBoundary(line)
    ensures SplitLines(text + line + "\n") == SplitLines(text) + [line]
  {
    assert text + line + "\n" == text + (line + "\n");
    SplitLinesFromAppend(text, line + "\n", []);
    SplitLinesOneLine(line, []);
    assert [] + line == line;
  }
}
