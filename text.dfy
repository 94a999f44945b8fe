/** String helpers replacing the regular expressions and `String.prototype` methods of the result page. */
module Text {
  import Seqs

  /**
   * The ECMAScript WhiteSpace and LineTerminator code points: exactly the
   * characters matched by the regular-expression class `\s` and removed by
   * `String.prototype.trim`.
   */
  predicate IsWhitespace(c: char)
  {
    c == '\t' || c == '\n' || c == '\U{000B}' || c == '\U{000C}' || c == '\r' ||
    c == ' ' || c == '\U{00A0}' || c == '\U{1680}' || ('\U{2000}' <= c <= '\U{200A}') ||
    c == '\U{2028}' || c == '\U{2029}' || c == '\U{202F}' || c == '\U{205F}' ||
    c == '\U{3000}' || c == '\U{FEFF}'
  }

  predicate NotWhitespace(c: char)
  {
    !IsWhitespace(c)
  }

  ghost predicate WhitespaceFree(s: string)
  {
    forall i :: 0 <= i < |s| ==> !IsWhitespace(s[i])
  }

  /** `s` holds a character that `trim` keeps. */
  ghost predicate HasVisibleChar(s: string)
  {
    exists i :: 0 <= i < |s| && !IsWhitespace(s[i])
  }

  /** `value.replace(/\s+/g, "")`: every whitespace character deleted. */
  function RemoveWhitespace(s: string): (r: string)
    ensures WhitespaceFree(r)
  {
    Seqs.Filter(s, NotWhitespace)
  }

  /** `trimStart`: the suffix left after dropping leading whitespace. */
  function TrimStart(s: string): string
  {
    if s != [] && IsWhitespace(s[0]) then TrimStart(s[1..]) else s
  }

  /** `trimEnd`: the prefix left after dropping trailing whitespace. */
  function TrimEnd(s: string): string
  {
    if s != [] && IsWhitespace(s[|s| - 1]) then TrimEnd(s[..|s| - 1]) else s
  }

  /** `String.prototype.trim`. */
  function Trim(s: string): string
  {
    TrimEnd(TrimStart(s))
  }

  /** `trimStart` removes exactly the leading run of whitespace. */
  lemma {:induction false} TrimStartSuffix(s: string)
    ensures var r := TrimStart(s);
      |r| <= |s| && r == s[|s| - |r|..] &&
      (forall k :: 0 <= k < |s| - |r| ==> IsWhitespace(s[k])) &&
      (r != [] ==> !IsWhitespace(r[0]))
  {
    if s != [] && IsWhitespace(s[0]) {
      var r := TrimStart(s[1..]);
      TrimStartSuffix(s[1..]);
      assert TrimStart(s) == r;
      assert s[1..][|s| - 1 - |r|..] == s[|s| - |r|..];
      forall k | 0 <= k < |s| - |r| ensures IsWhitespace(s[k]) {
        if k > 0 {
          assert s[k] == s[1..][k - 1];
        }
      }
    }
  }

  /** `trimEnd` removes exactly the trailing run of whitespace. */
  lemma {:induction false} TrimEndPrefix(s: string)
    ensures var r := TrimEnd(s);
      |r| <= |s| && r == s[..|r|] &&
      (forall k :: |r| <= k < |s| ==> IsWhitespace(s[k])) &&
      (r != [] ==> !IsWhitespace(r[|r| - 1]))
  {
    if s != [] && IsWhitespace(s[|s| - 1]) {
      var p := s[..|s| - 1];
      var r := TrimEnd(p);
      TrimEndPrefix(p);
      assert TrimEnd(s) == r;
      assert p[..|r|] == s[..|r|];
      forall k | |r| <= k < |s| ensures IsWhitespace(s[k]) {
        if k < |s| - 1 {
          assert s[k] == p[k];
        }
      }
    }
  }

  /** A visible character survives both trims. */
  lemma VisibleSurvivesTrim(s: string, i: nat)
    requires i < |s| && !IsWhitespace(s[i])
    ensures Trim(s) != []
  {
    var t := TrimStart(s);
    TrimStartSuffix(s);
    assert |s| - |t| <= i;
    var j := i - (|s| - |t|);
    assert t[j] == s[i];
    TrimEndPrefix(t);
    assert j < |TrimEnd(t)|;
  }

  /** A non-empty trimmed string starts with a visible character of the original. */
  lemma TrimmedStartsVisible(s: string)
    requires Trim(s) != []
    ensures var k := |s| - |TrimStart(s)|; 0 <= k < |s| && !IsWhitespace(s[k])
  {
    var t := TrimStart(s);
    TrimStartSuffix(s);
    TrimEndPrefix(t);
    assert t != [] && t[0] == s[|s| - |t|];
  }

  /** A trimmed string is empty exactly when the string is blank: `line.trim().length > 0` tests for a visible character. */
  lemma TrimEmptyIffBlank(s: string)
    ensures Trim(s) != [] <==> HasVisibleChar(s)
  {
    if HasVisibleChar(s) {
      var i :| 0 <= i < |s| && !IsWhitespace(s[i]);
      VisibleSurvivesTrim(s, i);
    }
    if Trim(s) != [] {
      TrimmedStartsVisible(s);
      var k := |s| - |TrimStart(s)|;
      assert 0 <= k < |s| && !IsWhitespace(s[k]);
    }
  }

  /** Trimming a string without whitespace changes nothing. */
  lemma TrimWhitespaceFree(s: string)
    requires WhitespaceFree(s)
    ensures Trim(s) == s
  {
    TrimStartSuffix(s);
    TrimEndPrefix(TrimStart(s));
    if s != [] {
      assert !IsWhitespace(s[0]) && !IsWhitespace(s[|s| - 1]);
    }
  }

  /** `normalizeName`: `value.replace(/\s+/g, "").trim()`. */
  function NormalizeName(s: string): (r: string)
    ensures WhitespaceFree(r)
  {
    TrimWhitespaceFree(RemoveWhitespace(s));
    Trim(RemoveWhitespace(s))
  }

  lemma {:induction false} FilterKeepsAll(s: string)
    requires WhitespaceFree(s)
    ensures Seqs.Filter(s, NotWhitespace) == s
  {
    if s != [] {
      FilterKeepsAll(s[1..]);
      assert s == [s[0]] + s[1..];
    }
  }

  /** Normalising is idempotent. */
  lemma NormalizeNameIdempotent(s: string)
    ensures NormalizeName(NormalizeName(s)) == NormalizeName(s)
  {
    var n := NormalizeName(s);
    FilterKeepsAll(n);
    TrimWhitespaceFree(n);
  }

  /** A leading visible character passes through normalisation unchanged. */
  lemma NormalizeNameCons(c: char, s: string)
    requires !IsWhitespace(c)
    ensures NormalizeName([c] + s) == [c] + NormalizeName(s)
  {
    assert ([c] + s)[1..] == s;
    assert RemoveWhitespace([c] + s) == [c] + RemoveWhitespace(s);
    TrimWhitespaceFree(RemoveWhitespace(s));
    TrimWhitespaceFree([c] + RemoveWhitespace(s));
  }

  /** Removing whitespace drops a whitespace head and keeps any other head in front of the rest. */
  lemma RemoveWhitespaceStep(c: char, s: string)
    ensures RemoveWhitespace([c] + s) == (if IsWhitespace(c) then [] else [c]) + RemoveWhitespace(s)
  {
    assert ([c] + s)[1..] == s;
  }

  /** Removing whitespace keeps every copy of every other character and no whitespace character. */
  lemma RemoveWhitespaceCount(s: string)
    ensures forall c :: multiset(RemoveWhitespace(s))[c] == if IsWhitespace(c) then 0 else multiset(s)[c]
  {
    Seqs.FilterCount(s, NotWhitespace);
  }

  /** A leading whitespace character vanishes under normalisation. */
  lemma NormalizeNameWs(w: char, s: string)
    requires IsWhitespace(w)
    ensures NormalizeName([w] + s) == NormalizeName(s)
  {
    RemoveWhitespaceStep(w, s);
  }

  /** A whitespace character anywhere in a name vanishes under normalisation. */
  lemma {:induction false} NormalizeNameDropsWhitespace(a: string, w: char, b: string)
    requires IsWhitespace(w)
    ensures NormalizeName(a + [w] + b) == NormalizeName(a + b)
  {
    if a == [] {
      assert a + [w] + b == [w] + b && a + b == b;
      NormalizeNameWs(w, b);
    } else {
      var rest := a[1..];
      NormalizeNameDropsWhitespace(rest, w, b);
      assert a + [w] + b == [a[0]] + (rest + [w] + b);
      assert a + b == [a[0]] + (rest + b);
      if IsWhitespace(a[0]) {
        NormalizeNameWs(a[0], rest + [w] + b);
        NormalizeNameWs(a[0], rest + b);
      } else {
        NormalizeNameCons(a[0], rest + [w] + b);
        NormalizeNameCons(a[0], rest + b);
      }
    }
  }

  /** `needle` occurs in `hay` starting at position `i`. */
  ghost predicate OccursAt(hay: string, needle: string, i: int)
  {
    0 <= i <= |hay| && needle <= hay[i..]
  }

  /** `String.prototype.includes`: the empty needle occurs everywhere. */
  function Contains(hay: string, needle: string): (r: bool)
    ensures r <==> exists i :: OccursAt(hay, needle, i)
  {
    if |needle| > |hay| then false
    else if hay[..|needle|] == needle then (assert OccursAt(hay, needle, 0); true)
    else
      var rest := Contains(hay[1..], needle);
      assert forall i :: OccursAt(hay, needle, i + 1) <==> OccursAt(hay[1..], needle, i) by {
        forall i | 0 <= i < |hay| ensures hay[i + 1..] == hay[1..][i..] { }
      }
      assert !OccursAt(hay, needle, 0);
      assert (exists i :: OccursAt(hay, needle, i)) ==> exists i :: OccursAt(hay[1..], needle, i) by {
        if exists i :: OccursAt(hay, needle, i) {
          var i :| OccursAt(hay, needle, i);
          assert OccursAt(hay[1..], needle, i - 1);
        }
      }
      rest
  }

  /** Every string contains the empty string. */
  lemma ContainsEmpty(hay: string)
    ensures Contains(hay, [])
  {
    assert OccursAt(hay, [], 0);
  }

  /** `s.split(sep)` for a one-character separator: the pieces between separators, at least one. */
  function Split(s: string, sep: char): (r: seq<string>)
    ensures |r| >= 1
    ensures forall i :: 0 <= i < |r| ==> sep !in r[i]
  {
    if s == [] then [[]]
    else
      var rest := Split(s[1..], sep);
      if s[0] == sep then [[]] + rest
      else [[s[0]] + rest[0]] + rest[1..]
  }

  /** `parts.join(sep)`. */
  function Join(parts: seq<string>, sep: char): string
    requires |parts| >= 1
  {
    if |parts| == 1 then parts[0] else parts[0] + [sep] + Join(parts[1..], sep)
  }

  /** Joining the pieces of a split gives back the string. */
  lemma {:induction false} JoinSplit(s: string, sep: char)
    ensures Join(Split(s, sep), sep) == s
  {
    if s != [] {
      var rest := Split(s[1..], sep);
      JoinSplit(s[1..], sep);
      if s[0] == sep {
        assert s == [sep] + s[1..];
      } else {
        var r := Split(s, sep);
        assert r[1..] == rest[1..];
        if |rest| == 1 {
          assert s == [s[0]] + rest[0];
        } else {
          assert Join(rest, sep) == rest[0] + [sep] + Join(rest[1..], sep);
          assert s == [s[0]] + rest[0] + [sep] + Join(rest[1..], sep);
        }
      }
    }
  }

  /** A string without the separator splits into itself. */
  lemma {:induction false} SplitNoSeparator(s: string, sep: char)
    requires sep !in s
    ensures Split(s, sep) == [s]
  {
    if s != [] {
      SplitNoSeparator(s[1..], sep);
      assert s == [s[0]] + s[1..];
    }
  }

  /** The piece before the first separator is split off whole. */
  lemma {:induction false} SplitAtSeparator(a: string, sep: char, b: string)
    requires sep !in a
    ensures Split(a + [sep] + b, sep) == [a] + Split(b, sep)
  {
    if a != [] {
      assert (a + [sep] + b)[1..] == a[1..] + [sep] + b;
      SplitAtSeparator(a[1..], sep, b);
      assert a == [a[0]] + a[1..];
    } else {
      assert (a + [sep] + b)[1..] == b;
    }
  }
}
