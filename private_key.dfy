/** `normalizePrivateKey`, defined identically in pages/api/commit.js and
    pages/api/status.js: a PEM key pasted into an environment variable with its
    line breaks written as the two characters `\` `n` is turned back into a
    multi-line key. */
module PrivateKey {
  import opened Wrappers
  import opened Text

  const PemMarker: string := "-----BEGIN"

  /** The two-character escape `\n` occurs somewhere in `s`. */
  predicate HasEscapedNewline(s: string)
    decreases |s|
  {
    |s| >= 2 && ((s[0] == '\\' && s[1] == 'n') || HasEscapedNewline(s[1..]))
  }

  /** `s.replace(/\\n/g, '\n')`: every backslash followed by the letter n,
      found scanning from the left without overlap, becomes a line feed. */
  function UnescapeNewlines(s: string): (r: string)
    ensures |r| <= |s|
    decreases |s|
  {
    if |s| >= 2 && s[0] == '\\' && s[1] == 'n' then "\n" + UnescapeNewlines(s[2..])
    else if s == [] then []
    else [s[0]] + UnescapeNewlines(s[1..])
  }

  /** The first character of the rewrite: a line feed for an escape, otherwise
      the first character of the input. */
  lemma UnescapeHead(s: string)
    requires s != []
    ensures UnescapeNewlines(s) != []
    ensures UnescapeNewlines(s)[0] == if |s| >= 2 && s[0] == '\\' && s[1] == 'n' then '\n' else s[0]
  {
  }

  /** No escape survives the rewrite: a kept backslash is never followed by a
      kept letter n, and the line feeds it writes are not the letter n. */
  lemma {:induction false} UnescapeLeavesNoEscape(s: string)
    ensures !HasEscapedNewline(UnescapeNewlines(s))
    decreases |s|
  {
    var r := UnescapeNewlines(s);
    if |s| >= 2 && s[0] == '\\' && s[1] == 'n' {
      UnescapeLeavesNoEscape(s[2..]);
      assert r[1..] == UnescapeNewlines(s[2..]);
    } else if s != [] {
      UnescapeLeavesNoEscape(s[1..]);
      assert r[1..] == UnescapeNewlines(s[1..]);
      if |r| >= 2 && r[0] == '\\' {
        UnescapeHead(s[1..]);
      }
    }
  }

  /** The rewrite shortens a key by one character per escape, so it changes a
      key exactly when the key holds an escape. */
  lemma {:induction false} UnescapeShortens(s: string)
    requires HasEscapedNewline(s)
    ensures |UnescapeNewlines(s)| < |s|
    decreases |s|
  {
    if !(s[0] == '\\' && s[1] == 'n') {
      UnescapeShortens(s[1..]);
    }
  }

  lemma {:induction false} UnescapeIdentity(s: string)
    requires !HasEscapedNewline(s)
    ensures UnescapeNewlines(s) == s
    decreases |s|
  {
    if s != [] {
      UnescapeIdentity(s[1..]);
      assert s == [s[0]] + s[1..];
    }
  }

  /** One step of `UnescapeAppend` when `a` starts with an escape. */
  lemma UnescapeAppendEscapeStep(a: string, b: string)
    requires |a| >= 2 && a[0] == '\\' && a[1] == 'n'
    requires UnescapeNewlines(a[2..] + b) == UnescapeNewlines(a[2..]) + UnescapeNewlines(b)
    ensures UnescapeNewlines(a + b) == UnescapeNewlines(a) + UnescapeNewlines(b)
  {
    var ab := a + b;
    DropFromConcat(a, b, 2);
    assert ab[0] == '\\' && ab[1] == 'n';
    var x, y := UnescapeNewlines(a[2..]), UnescapeNewlines(b);
    assert UnescapeNewlines(ab) == "\n" + (x + y);
    assert UnescapeNewlines(a) == "\n" + x;
    ConcatAssoc("\n", x, y);
  }

  /** One step of `UnescapeAppend` when `a` starts with a kept character. */
  lemma UnescapeAppendPlainStep(a: string, b: string)
    requires a != [] && !(|a| >= 2 && a[0] == '\\' && a[1] == 'n')
    requires !(|a| == 1 && a[0] == '\\' && b != [] && b[0] == 'n')
    requires UnescapeNewlines(a[1..] + b) == UnescapeNewlines(a[1..]) + UnescapeNewlines(b)
    ensures UnescapeNewlines(a + b) == UnescapeNewlines(a) + UnescapeNewlines(b)
  {
    var ab := a + b;
    DropFromConcat(a, b, 1);
    assert ab[0] == a[0];
    assert !(|ab| >= 2 && ab[0] == '\\' && ab[1] == 'n');
    var x, y := UnescapeNewlines(a[1..]), UnescapeNewlines(b);
    assert UnescapeNewlines(ab) == [a[0]] + (x + y);
    assert UnescapeNewlines(a) == [a[0]] + x;
    ConcatAssoc([a[0]], x, y);
  }

  /** The rewrite works piece by piece: rewriting a concatenation rewrites
      each part, provided no escape straddles the seam (a backslash ending the
      left part and a letter n starting the right one). */
  lemma {:induction false} UnescapeAppend(a: string, b: string)
    requires !(a != [] && a[|a| - 1] == '\\' && b != [] && b[0] == 'n')
    ensures UnescapeNewlines(a + b) == UnescapeNewlines(a) + UnescapeNewlines(b)
    decreases |a|
  {
    if a == [] {
      assert a + b == b;
    } else if |a| >= 2 && a[0] == '\\' && a[1] == 'n' {
      UnescapeAppend(a[2..], b);
      UnescapeAppendEscapeStep(a, b);
    } else {
      if |a| == 1 {
        assert a[1..] + b == b;
      } else {
        UnescapeAppend(a[1..], b);
      }
      UnescapeAppendPlainStep(a, b);
    }
  }

  /** Each escape becomes one line feed and the text around it is rewritten
      on its own: no match straddles either side of an escape. */
  lemma UnescapeAroundEscape(a: string, b: string)
    ensures UnescapeNewlines(a + "\\n" + b) == UnescapeNewlines(a) + "\n" + UnescapeNewlines(b)
  {
    assert UnescapeNewlines("\\n" + b) == "\n" + UnescapeNewlines(b);
    UnescapeAppend(a, "\\n" + b);
    assert a + "\\n" + b == a + ("\\n" + b);
  }

  /** The rewrite leaves a key unchanged if and only if it holds no escape. */
  lemma UnescapeFixedPoints(s: string)
    ensures UnescapeNewlines(s) == s <==> !HasEscapedNewline(s)
  {
    if HasEscapedNewline(s) {
      UnescapeShortens(s);
    } else {
      UnescapeIdentity(s);
    }
  }

  /** `normalizePrivateKey(key)`: `null` for a missing or empty key; the key
      itself when it already holds a PEM header; otherwise the key with its
      escaped line breaks restored. */
  function NormalizePrivateKey(key: Option<string>): (r: Option<string>)
    ensures r.None? <==> key.None? || key.value == []
    ensures r.Some? && Contains(key.value, PemMarker) ==> r.value == key.value
    ensures r.Some? && !Contains(key.value, PemMarker) ==>
              r.value == UnescapeNewlines(key.value) && !HasEscapedNewline(r.value)
  {
    match key
    case None => None
    case Some(k) =>
      if k == [] then None
      else if Contains(k, PemMarker) then Some(k)
      else
        UnescapeLeavesNoEscape(k);
        Some(UnescapeNewlines(k))
  }

  /** Normalizing twice is normalizing once. */
  lemma NormalizeIdempotent(key: Option<string>)
    ensures NormalizePrivateKey(NormalizePrivateKey(key)) == NormalizePrivateKey(key)
  {
    var r := NormalizePrivateKey(key);
    if r.Some? && !Contains(key.value, PemMarker) && !Contains(r.value, PemMarker) {
      UnescapeHead(key.value);
      UnescapeIdentity(r.value);
    }
  }
}
