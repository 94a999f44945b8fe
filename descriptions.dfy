/** Finding a member's description by fuzzy name matching, and splitting it into display lines. */
module Descriptions {
  import opened Wrappers
  import opened Catalog
  import Seqs
  import opened Text

  predicate IsCloseBracket(c: char)
  {
    c == ']'
  }

  /**
   * The match of `/\[([^\]]+)\]/` starting at position `i`, if any: a `[`,
   * then at least one character up to the first `]` after it. The content is returned.
   */
  function BracketAt(s: string, i: nat): (r: Option<string>)
    requires i < |s|
    ensures r.Some? ==> s[i] == '[' && r.value != [] && ']' !in r.value
    ensures r.Some? ==> i + 1 + |r.value| < |s| && s[i + 1..i + 1 + |r.value|] == r.value && s[i + 1 + |r.value|] == ']'
    ensures r.None? ==> s[i] != '[' || forall k :: i < k < |s| ==> s[k] != ']' || s[i + 1] == ']'
  {
    if s[i] != '[' then None
    else match Seqs.FindFirst(s[i + 1..], IsCloseBracket)
      case None =>
        assert forall k :: i < k < |s| ==> s[k] == s[i + 1..][k - i - 1];
        None
      case Some(j) =>
        if j == 0 then None
        else
          assert s[i + 1..i + 1 + j] == s[i + 1..][..j];
          Some(s[i + 1..i + 1 + j])
  }

  /** The position of the first bracket match at or after `from`: regular-expression search scans left to right. */
  function FirstBracketIndex(s: string, from: nat): (r: Option<nat>)
    requires from <= |s|
    ensures r.Some? ==> from <= r.value < |s| && BracketAt(s, r.value).Some?
    ensures r.Some? ==> forall k :: from <= k < r.value ==> BracketAt(s, k).None?
    ensures r.None? ==> forall k :: from <= k < |s| ==> BracketAt(s, k).None?
    decreases |s| - from
  {
    if from == |s| then None
    else if BracketAt(s, from).Some? then Some(from)
    else FirstBracketIndex(s, from + 1)
  }

  /** `extractBracketName`: the content of the first non-empty `[...]` pair, or the whole name. */
  function ExtractBracketName(s: string): (r: string)
    ensures (forall k :: 0 <= k < |s| ==> BracketAt(s, k).None?) ==> r == s
    ensures (exists k :: 0 <= k < |s| && BracketAt(s, k).Some?) ==>
      exists i :: 0 <= i < |s| && BracketAt(s, i) == Some(r) && forall k :: 0 <= k < i ==> BracketAt(s, k).None?
  {
    match FirstBracketIndex(s, 0)
    case Some(i) => BracketAt(s, i).value
    case None => s
  }

  /** The first `]` after a run of non-`]` characters is found right after the run. */
  lemma FirstCloseAfterAlias(alias: string, rest: string)
    requires ']' !in alias
    ensures Seqs.FindFirst(alias + "]" + rest, IsCloseBracket) == Some(|alias|)
  {
    var t := alias + "]" + rest;
    assert IsCloseBracket(t[|alias|]);
    assert forall k :: 0 <= k < |alias| ==> t[k] == alias[k];
  }

  /** A `[` followed by a non-empty alias and `]` is a bracket match whose content is the alias. */
  lemma BracketAtAlias(prefix: string, alias: string, rest: string)
    requires alias != [] && ']' !in alias
    ensures var s := prefix + "[" + alias + "]" + rest;
      |prefix| < |s| && BracketAt(s, |prefix|) == Some(alias)
  {
    var s := prefix + "[" + alias + "]" + rest;
    var i := |prefix|;
    assert s[i] == '[';
    assert s[i + 1..] == alias + "]" + rest;
    FirstCloseAfterAlias(alias, rest);
    assert s[i + 1..i + 1 + |alias|] == alias;
  }

  /** A decorated name `prefix[alias]rest` without an earlier `[` yields its alias. */
  lemma ExtractAlias(prefix: string, alias: string, rest: string)
    requires '[' !in prefix && alias != [] && ']' !in alias
    ensures ExtractBracketName(prefix + "[" + alias + "]" + rest) == alias
  {
    var s := prefix + "[" + alias + "]" + rest;
    var i := |prefix|;
    BracketAtAlias(prefix, alias, rest);
    forall k | 0 <= k < i ensures BracketAt(s, k).None? {
      assert s[k] == prefix[k];
    }
    var r := FirstBracketIndex(s, 0);
    assert r == Some(i);
  }

  /** `s.slice(1)`: the string without its first character. */
  function Tail(s: string): (r: string)
    ensures s == [] ==> r == []
    ensures s != [] ==> [s[0]] + r == s
  {
    if s == [] then [] else s[1..]
  }

  /** `[a, b].filter(Boolean)`: the non-empty ones of two strings, in order. */
  function NonEmptyOf(a: string, b: string): (cs: seq<string>)
    ensures |cs| <= 2
    ensures forall c :: c in cs ==> c != [] && (c == a || c == b)
    ensures a != [] ==> a in cs
    ensures b != [] ==> b in cs
  {
    if a == [] then (if b == [] then [] else [b])
    else if b == [] then [a]
    else [a, b]
  }

  /** The names tried for a member: its normalised name and its normalised name without the first character, empty ones dropped. */
  function Candidates(memberName: string): (cs: seq<string>)
    ensures |cs| <= 2
    ensures NormalizeName(memberName) != [] ==> NormalizeName(memberName) in cs
    ensures NormalizeName(Tail(memberName)) != [] ==> NormalizeName(Tail(memberName)) in cs
    ensures forall c :: c in cs ==> c != [] && (c == NormalizeName(memberName) || c == NormalizeName(Tail(memberName)))
    ensures forall c :: c in cs ==> WhitespaceFree(c)
  {
    NonEmptyOf(NormalizeName(memberName), NormalizeName(Tail(memberName)))
  }

  /** The name a description is compared under: its bracketed alias (or whole name), normalised. */
  function ComparedName(d: MemberDescription): (n: string)
    ensures WhitespaceFree(n)
  {
    NormalizeName(ExtractBracketName(d.name))
  }

  /** Some candidate contains the compared name or is contained in it. */
  predicate Overlaps(candidates: seq<string>, compared: string)
  {
    exists c :: c in candidates && (Contains(compared, c) || Contains(c, compared))
  }

  /** The `for...of` scan: the first description whose compared name overlaps a candidate. */
  function FindDescription(candidates: seq<string>, descriptions: seq<MemberDescription>): (r: Option<nat>)
    ensures r.Some? ==> r.value < |descriptions| && Overlaps(candidates, ComparedName(descriptions[r.value]))
    ensures r.Some? ==> forall k :: 0 <= k < r.value ==> !Overlaps(candidates, ComparedName(descriptions[k]))
    ensures r.None? <==> forall k :: 0 <= k < |descriptions| ==> !Overlaps(candidates, ComparedName(descriptions[k]))
  {
    Seqs.FindFirst(descriptions, d => Overlaps(candidates, ComparedName(d)))
  }

  /** `descriptions[i]` is the first entry that matches `memberName`. */
  ghost predicate FirstMatchAt(memberName: string, descriptions: seq<MemberDescription>, i: int)
  {
    0 <= i < |descriptions| && Overlaps(Candidates(memberName), ComparedName(descriptions[i])) &&
    forall k :: 0 <= k < i ==> !Overlaps(Candidates(memberName), ComparedName(descriptions[k]))
  }

  /** `resolveDescription`: the first matching entry in catalog order, or nothing. */
  function ResolveDescription(memberName: string, descriptions: seq<MemberDescription>): (r: Option<MemberDescription>)
    ensures r.Some? ==> exists i :: FirstMatchAt(memberName, descriptions, i) && descriptions[i] == r.value
    ensures r.None? <==> forall k :: 0 <= k < |descriptions| ==> !Overlaps(Candidates(memberName), ComparedName(descriptions[k]))
  {
    match FindDescription(Candidates(memberName), descriptions)
    case Some(i) =>
      assert FirstMatchAt(memberName, descriptions, i);
      Some(descriptions[i])
    case None => None
  }

  /** An entry whose compared name normalises to nothing matches every member that has a candidate. */
  lemma EmptyComparedNameMatches(memberName: string, d: MemberDescription)
    requires ComparedName(d) == []
    requires Candidates(memberName) != []
    ensures Overlaps(Candidates(memberName), ComparedName(d))
  {
    var c := Candidates(memberName)[0];
    ContainsEmpty(c);
    assert c in Candidates(memberName);
  }

  /** A name made only of whitespace has no candidates, so it resolves to nothing. */
  lemma BlankNameResolvesNothing(memberName: string, descriptions: seq<MemberDescription>)
    requires !HasVisibleChar(memberName)
    ensures ResolveDescription(memberName, descriptions) == None
  {
    BlankNormalizesEmpty(memberName);
    BlankNormalizesEmpty(Tail(memberName));
    assert Candidates(memberName) == [];
  }

  lemma BlankNormalizesEmpty(s: string)
    requires !HasVisibleChar(s)
    ensures NormalizeName(s) == []
  {
  }

  /**
   * Whitespace after the first character does not change the outcome: names
   * with the same visible first character that normalise alike resolve alike.
   */
  lemma InnerWhitespaceIgnored(c: char, x: string, y: string, descriptions: seq<MemberDescription>)
    requires !IsWhitespace(c)
    requires NormalizeName(x) == NormalizeName(y)
    ensures ResolveDescription([c] + x, descriptions) == ResolveDescription([c] + y, descriptions)
  {
    NormalizeNameCons(c, x);
    NormalizeNameCons(c, y);
    assert Tail([c] + x) == x && Tail([c] + y) == y;
    assert Candidates([c] + x) == Candidates([c] + y);
  }

  /** Two names whose full and tail normalisations agree resolve to the same description. */
  lemma SameNormalFormsResolveAlike(x: string, y: string, descriptions: seq<MemberDescription>)
    requires NormalizeName(x) == NormalizeName(y) && NormalizeName(Tail(x)) == NormalizeName(Tail(y))
    ensures ResolveDescription(x, descriptions) == ResolveDescription(y, descriptions)
  {
    assert Candidates(x) == Candidates(y);
  }

  /** Inserting after the first character inserts into the tail. */
  lemma TailOfInsert(a: string, w: char, b: string)
    requires a != []
    ensures Tail(a + [w] + b) == Tail(a) + [w] + b && Tail(a + b) == Tail(a) + b
  {
  }

  /**
   * A whitespace character after the first character of a name does not
   * change which description it resolves to.
   */
  lemma SpaceAfterFirstIgnored(a: string, w: char, b: string, descriptions: seq<MemberDescription>)
    requires a != [] && IsWhitespace(w)
    ensures ResolveDescription(a + [w] + b, descriptions) == ResolveDescription(a + b, descriptions)
  {
    NormalizeNameDropsWhitespace(a, w, b);
    TailOfInsert(a, w, b);
    NormalizeNameDropsWhitespace(Tail(a), w, b);
    SameNormalFormsResolveAlike(a + [w] + b, a + b, descriptions);
  }

  /** A member listed as "김 철수" finds the same description as "김철수". */
  lemma SpacedNameResolvesAlike(descriptions: seq<MemberDescription>)
    ensures ResolveDescription("김 철수", descriptions) == ResolveDescription("김철수", descriptions)
  {
    assert "김 철수" == "김" + [' '] + "철수";
    assert "김철수" == "김" + "철수";
    SpaceAfterFirstIgnored("김", ' ', "철수", descriptions);
  }

  /** `line.trim().length > 0`. */
  predicate IsNonBlankLine(line: string): (b: bool)
    ensures b <==> HasVisibleChar(line)
  {
    TrimEmptyIffBlank(line);
    |Trim(line)| > 0
  }

  /** `text.split("\n").filter((line) => line.trim().length > 0)`. */
  function NonBlankLines(text: string): (lines: seq<string>)
    ensures forall i :: 0 <= i < |lines| ==> HasVisibleChar(lines[i]) && '\n' !in lines[i]
    ensures forall l :: l in Split(text, '\n') && HasVisibleChar(l) ==> l in lines
    ensures forall l :: multiset(lines)[l] == if HasVisibleChar(l) then multiset(Split(text, '\n'))[l] else 0
  {
    Seqs.FilterCount(Split(text, '\n'), IsNonBlankLine);
    Seqs.Filter(Split(text, '\n'), IsNonBlankLine)
  }

  /** The displayed summary: the description split on `\n` with blank lines dropped; none without a description. */
  function DescriptionLines(d: Option<MemberDescription>): (lines: seq<string>)
    ensures d.None? ==> lines == []
    ensures forall i :: 0 <= i < |lines| ==> HasVisibleChar(lines[i]) && '\n' !in lines[i]
    ensures d.Some? ==> forall l :: l in Split(d.value.desc, '\n') && HasVisibleChar(l) ==> l in lines
    ensures d.Some? ==> forall l :: multiset(lines)[l] == if HasVisibleChar(l) then multiset(Split(d.value.desc, '\n'))[l] else 0
  {
    if d.None? || d.value.desc == [] then
      assert d.Some? ==> Split(d.value.desc, '\n') == [[]];
      assert !HasVisibleChar([]);
      []
    else
      NonBlankLines(d.value.desc)
  }

  /** The kept lines are the split lines in their original order, some removed. */
  lemma DescriptionLinesInOrder(d: MemberDescription)
    ensures Seqs.Subsequence(DescriptionLines(Some(d)), Split(d.desc, '\n'))
  {
    if d.desc != [] {
      Seqs.FilterIsSubsequence(Split(d.desc, '\n'), IsNonBlankLine);
      assert DescriptionLines(Some(d)) == NonBlankLines(d.desc);
    }
  }
}
