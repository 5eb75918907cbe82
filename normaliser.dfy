/**
 * The pattern normaliser run by the RegularExpressionInjectionAnalyser constructor: two
 * `String.replaceAll` calls, each a single left-to-right pass that replaces non-overlapping
 * matches. Both regular expressions have the shape `open [^close]+ close` (three literal
 * characters, one or more characters other than `close`, then `close`), so one hand-written
 * scanner, ReplaceAll, serves both.
 */
module Normaliser {
  import opened Wrappers

  /** `\(\?<[^>]+>`, replaced by `(`: named groups become plain groups. */
  const GroupOpen: string := "(?<"
  const GroupClose: char := '>'
  const GroupReplacement: string := "("

  /** `\\p\{[^}]+}`, replaced by the two characters backslash and dollar. */
  const PropertyOpen: string := "\\p{"
  const PropertyClose: char := '}'
  const PropertyReplacement: string := "\\$"

  /** The first index k >= from with s[k] == c, or |s| when there is none. */
  function IndexOf(s: string, c: char, from: nat): (k: nat)
    requires from <= |s|
    ensures from <= k <= |s|
    ensures forall j :: from <= j < k ==> s[j] != c
    ensures k < |s| ==> s[k] == c
    decreases |s| - from
  {
    if from == |s| || s[from] == c then from else IndexOf(s, c, from + 1)
  }

  /** t[..n] is one whole match of `open [^close]+ close`. */
  ghost predicate IsMatch(t: string, open: string, close: char, n: nat)
  {
    && open <= t
    && |open| + 2 <= n <= |t|
    && t[n - 1] == close
    && forall j :: |open| <= j < n - 1 ==> t[j] != close
  }

  /** The length of the match that starts at the head of t, if there is one. Because the body
      `[^close]+` cannot contain `close`, the match, when it exists, ends at the first `close`
      after `open` and is unique. */
  function MatchEnd(t: string, open: string, close: char): (r: Option<nat>)
    ensures r.Some? ==> IsMatch(t, open, close, r.value)
    ensures r.None? ==> forall n :: !IsMatch(t, open, close, n)
  {
    if open <= t && |open| < |t| && t[|open|] != close then
      var k := IndexOf(t, close, |open| + 1);
      if k < |t| then Some(k + 1) else None
    else None
  }

  /** One `replaceAll(open [^close]+ close, repl)` pass: scanning from the left, a match at the
      current position is replaced by `repl` and the scan resumes after it; otherwise the current
      character is kept and the scan moves one character on. */
  function ReplaceAll(s: string, open: string, close: char, repl: string): string
    decreases |s|
  {
    if s == [] then []
    else match MatchEnd(s, open, close)
      case Some(n) => repl + ReplaceAll(s[n..], open, close, repl)
      case None => [s[0]] + ReplaceAll(s[1..], open, close, repl)
  }

  /** Some position of s starts a match. */
  predicate Occurs(s: string, open: string, close: char)
    decreases |s|
  {
    s != [] && (MatchEnd(s, open, close).Some? || Occurs(s[1..], open, close))
  }

  /** w is a contiguous part of s. */
  predicate ContainsInfix(s: string, w: string)
    decreases |s|
  {
    w <= s || (s != [] && ContainsInfix(s[1..], w))
  }

  /** The first rewrite: named groups `(?<name>` become `(`. */
  function RemoveNamedGroups(pattern: string): string
  {
    ReplaceAll(pattern, GroupOpen, GroupClose, GroupReplacement)
  }

  /** The second rewrite: `\p{...}` escapes become `\$`. */
  function ReplacePropertyEscapes(pattern: string): string
  {
    ReplaceAll(pattern, PropertyOpen, PropertyClose, PropertyReplacement)
  }

  /** The pattern the analyser stores: named groups removed first, then property escapes replaced. */
  function Normalize(pattern: string): string
  {
    ReplacePropertyEscapes(RemoveNamedGroups(pattern))
  }

  // ---------------------------------------------------------------------------------------------
  // Properties of one pass

  /** Occurs means what it says: some suffix of s starts with a whole match. */
  lemma {:induction false} OccursAt(s: string, open: string, close: char)
    ensures Occurs(s, open, close) <==>
            exists i, n :: 0 <= i < |s| && IsMatch(s[i..], open, close, n)
    decreases |s|
  {
    if s != [] {
      OccursAt(s[1..], open, close);
      if exists i, n :: 0 <= i < |s| && IsMatch(s[i..], open, close, n) {
        var i, n :| 0 <= i < |s| && IsMatch(s[i..], open, close, n);
        if i > 0 {
          assert s[i..] == s[1..][i - 1..];
        }
      }
      if Occurs(s[1..], open, close) {
        var i, n :| 0 <= i < |s[1..]| && IsMatch(s[1..][i..], open, close, n);
        assert s[1..][i..] == s[i + 1..];
      }
      if MatchEnd(s, open, close).Some? {
        assert s[0..] == s;
      }
    }
  }

  /** A pass never lengthens its input when the replacement is shorter than every match
      (a match is at least |open| + 2 long), and shortens it exactly when a match occurs. */
  lemma {:induction false} ReplaceAllLength(s: string, open: string, close: char, repl: string)
    requires |repl| < |open| + 2
    ensures |ReplaceAll(s, open, close, repl)| <= |s|
    ensures |ReplaceAll(s, open, close, repl)| < |s| <==> Occurs(s, open, close)
    decreases |s|
  {
    if s != [] {
      match MatchEnd(s, open, close)
      case Some(n) =>
        ReplaceAllLength(s[n..], open, close, repl);
      case None =>
        ReplaceAllLength(s[1..], open, close, repl);
    }
  }

  /** With no match anywhere, a pass returns its input unchanged. */
  lemma {:induction false} ReplaceAllNoMatch(s: string, open: string, close: char, repl: string)
    requires !Occurs(s, open, close)
    ensures ReplaceAll(s, open, close, repl) == s
    decreases |s|
  {
    if s != [] {
      ReplaceAllNoMatch(s[1..], open, close, repl);
      assert [s[0]] + s[1..] == s;
    }
  }

  /** A match begins with `open`, so a string without `open` has no match. */
  lemma {:induction false} OccursNeedsOpen(s: string, open: string, close: char)
    requires Occurs(s, open, close)
    ensures ContainsInfix(s, open)
    decreases |s|
  {
    if MatchEnd(s, open, close).None? {
      OccursNeedsOpen(s[1..], open, close);
    }
  }

  /** Every character of an infix occurs in the string. */
  lemma {:induction false} InfixNeedsChar(s: string, w: string, c: char)
    requires c in w && c !in s
    ensures !ContainsInfix(s, w)
    decreases |s|
  {
    if s != [] {
      InfixNeedsChar(s[1..], w, c);
    }
  }

  /** When the replacement begins like `open`, a pass keeps the first character. */
  lemma HeadKept(s: string, open: string, close: char, repl: string)
    requires s != [] && open != [] && repl != [] && repl[0] == open[0]
    ensures ReplaceAll(s, open, close, repl) != []
    ensures ReplaceAll(s, open, close, repl)[0] == s[0]
  {
  }

  /** A replacement without `close` brings no `close` into the output. */
  lemma {:induction false} CloseNotAdded(s: string, open: string, close: char, repl: string)
    requires close !in repl
    requires close !in s
    ensures close !in ReplaceAll(s, open, close, repl)
    decreases |s|
  {
    if s != [] {
      // every match contains `close`, so none starts at the head of s
      CloseNotAdded(s[1..], open, close, repl);
    }
  }

  // ---------------------------------------------------------------------------------------------
  // The property-escape pass leaves no property escape behind

  /** Where the scan keeps the head character of s, the output cannot start a new match there. */
  lemma NoPropertyMatchAtKeptHead(s: string)
    requires s != [] && MatchEnd(s, PropertyOpen, PropertyClose).None?
    ensures MatchEnd([s[0]] + ReplacePropertyEscapes(s[1..]), PropertyOpen, PropertyClose).None?
  {
    var t := [s[0]] + ReplacePropertyEscapes(s[1..]);
    if s[0] == '\\' && |s| > 1 {
      HeadKept(s[1..], PropertyOpen, PropertyClose, PropertyReplacement);
      assert t[1] == s[1];
      if |s| == 2 {
        assert s[1..][1..] == [];
        assert |t| == 2;
      } else if s[1] == 'p' {
        assert s[1..][1..] == s[2..];
        assert ReplacePropertyEscapes(s[1..]) == [s[1]] + ReplacePropertyEscapes(s[2..]);
        HeadKept(s[2..], PropertyOpen, PropertyClose, PropertyReplacement);
        assert t[2] == s[2];
        if s[2] == '{' {
          assert s[2..][1..] == s[3..];
          var rest := ReplacePropertyEscapes(s[3..]);
          assert t == PropertyOpen + rest;
          assert s[..3] == PropertyOpen;
          if |s| == 3 {
            assert rest == [];
            assert MatchEnd(t, PropertyOpen, PropertyClose).None?;
          } else if s[3] == PropertyClose {
            HeadKept(s[3..], PropertyOpen, PropertyClose, PropertyReplacement);
            assert t[3] == PropertyClose;
            assert MatchEnd(t, PropertyOpen, PropertyClose).None?;
          } else {
            // no `}` after the `\p{` of s, so none after the `\p{` of t
            assert IndexOf(s, PropertyClose, 4) == |s|;
            assert PropertyClose !in s[3..] by {
              forall j | 0 <= j < |s[3..]| ensures s[3..][j] != PropertyClose {
                assert s[3..][j] == s[j + 3];
              }
            }
            CloseNotAdded(s[3..], PropertyOpen, PropertyClose, PropertyReplacement);
            forall j | 4 <= j < |t| ensures t[j] != PropertyClose {
              assert t[j] == rest[j - 3];
            }
            assert IndexOf(t, PropertyClose, 4) == |t|;
            assert MatchEnd(t, PropertyOpen, PropertyClose).None?;
          }
        }
      }
    } else if |s| == 1 {
      assert s[1..] == [];
      assert t == [s[0]];
    } else {
      assert t[0] == s[0] != PropertyOpen[0];
    }
  }

  /** The output of the property-escape pass has no `\p{...}` escape with a non-empty body. */
  lemma {:induction false} PropertyEscapesGone(s: string)
    ensures !Occurs(ReplacePropertyEscapes(s), PropertyOpen, PropertyClose)
    decreases |s|
  {
    if s != [] {
      match MatchEnd(s, PropertyOpen, PropertyClose)
      case Some(n) =>
        PropertyEscapesGone(s[n..]);
        var rest := ReplacePropertyEscapes(s[n..]);
        var t := PropertyReplacement + rest;
        assert ReplacePropertyEscapes(s) == t;
        assert t[1] == '$' && !(PropertyOpen <= t);
        assert t[1..] == ['$'] + rest;
        assert !(PropertyOpen <= t[1..]);
        assert t[1..][1..] == rest;
      case None =>
        PropertyEscapesGone(s[1..]);
        NoPropertyMatchAtKeptHead(s);
        var t := [s[0]] + ReplacePropertyEscapes(s[1..]);
        assert t[1..] == ReplacePropertyEscapes(s[1..]);
    }
  }

  // ---------------------------------------------------------------------------------------------
  // Properties of the whole normaliser

  /** A pattern with neither `(?<` nor `\p{` is returned unchanged. */
  lemma NormalizeIdentity(pattern: string)
    requires !ContainsInfix(pattern, GroupOpen) && !ContainsInfix(pattern, PropertyOpen)
    ensures Normalize(pattern) == pattern
  {
    if Occurs(pattern, GroupOpen, GroupClose) {
      OccursNeedsOpen(pattern, GroupOpen, GroupClose);
    }
    ReplaceAllNoMatch(pattern, GroupOpen, GroupClose, GroupReplacement);
    if Occurs(pattern, PropertyOpen, PropertyClose) {
      OccursNeedsOpen(pattern, PropertyOpen, PropertyClose);
    }
    ReplaceAllNoMatch(pattern, PropertyOpen, PropertyClose, PropertyReplacement);
  }

  /** Normalisation never lengthens the pattern, and shortens it exactly when one of the two
      passes found a match in its input. */
  lemma NormalizeLength(pattern: string)
    ensures |Normalize(pattern)| <= |pattern|
    ensures |Normalize(pattern)| < |pattern| <==>
            Occurs(pattern, GroupOpen, GroupClose) ||
            Occurs(RemoveNamedGroups(pattern), PropertyOpen, PropertyClose)
  {
    ReplaceAllLength(pattern, GroupOpen, GroupClose, GroupReplacement);
    ReplaceAllLength(RemoveNamedGroups(pattern), PropertyOpen, PropertyClose, PropertyReplacement);
  }

  /** Normalisation leaves the pattern unchanged exactly when neither pass finds a match. */
  lemma NormalizeUnchangedIff(pattern: string)
    ensures Normalize(pattern) == pattern <==>
            !Occurs(pattern, GroupOpen, GroupClose) &&
            !Occurs(RemoveNamedGroups(pattern), PropertyOpen, PropertyClose)
  {
    NormalizeLength(pattern);
    if !Occurs(pattern, GroupOpen, GroupClose) {
      ReplaceAllNoMatch(pattern, GroupOpen, GroupClose, GroupReplacement);
      if !Occurs(pattern, PropertyOpen, PropertyClose) {
        ReplaceAllNoMatch(pattern, PropertyOpen, PropertyClose, PropertyReplacement);
      }
    }
  }

  /** Because the property-escape pass runs last, no `\p{...}` escape with a non-empty body
      survives normalisation. */
  lemma NormalizeRemovesPropertyEscapes(pattern: string)
    ensures !Occurs(Normalize(pattern), PropertyOpen, PropertyClose)
  {
    PropertyEscapesGone(RemoveNamedGroups(pattern));
  }

  // ---------------------------------------------------------------------------------------------
  // Worked patterns

  /** Normalisation is not idempotent: removing one named group can assemble another. */
  lemma NormalizeNotIdempotent()
    ensures Normalize("((?<a>?<b>") == "((?<b>"
    ensures Normalize(Normalize("((?<a>?<b>")) == "(("
  {
    var s := "((?<a>?<b>";
    assert MatchEnd(s, GroupOpen, GroupClose).None?;
    assert s[1..] == "(?<a>?<b>";
    assert IndexOf(s[1..], GroupClose, 4) == 4;
    assert MatchEnd(s[1..], GroupOpen, GroupClose) == Some(5);
    assert s[1..][5..] == "?<b>";
    assert !ContainsInfix("?<b>", GroupOpen);
    NormalizeIdentity("?<b>");
    assert RemoveNamedGroups(s) == "((?<b>";
    assert !ContainsInfix("((?<b>", PropertyOpen);
    var t := "((?<b>";
    assert MatchEnd(t, GroupOpen, GroupClose).None?;
    assert t[1..] == "(?<b>";
    assert IndexOf(t[1..], GroupClose, 4) == 4;
    assert MatchEnd(t[1..], GroupOpen, GroupClose) == Some(5);
    assert t[1..][5..] == [];
    assert RemoveNamedGroups(t) == "((";
  }

  /** The named-group pass also takes lookbehinds: `(?<=a)b>c` matches `(?<[^>]+>` up to the
      first `>`, so the lookbehind and the text after it up to that `>` are dropped. */
  lemma LookbehindRewritten()
    ensures RemoveNamedGroups("(?<=a)b>c") == "(c"
  {
    var s := "(?<=a)b>c";
    assert IndexOf(s, GroupClose, 4) == 7;
    assert MatchEnd(s, GroupOpen, GroupClose) == Some(8);
    assert s[8..] == "c";
    ReplaceAllNoMatch("c", GroupOpen, GroupClose, GroupReplacement);
  }

  /** Two invalid patterns of the analyser's tests reach the automaton builder unchanged. */
  lemma NormalizeInvalidExamples()
    ensures Normalize("((") == "(("
    ensures Normalize("^(a)\\1$") == "^(a)\\1$"
  {
    NormalizeIdentity("((");
    InfixNeedsChar("^(a)\\1$", GroupOpen, '?');
    InfixNeedsChar("^(a)\\1$", PropertyOpen, 'p');
    NormalizeIdentity("^(a)\\1$");
  }
}
