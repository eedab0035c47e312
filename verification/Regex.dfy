/**
 The expression engine: one loop that moves a pointer through the text and a pointer through the expression.
 */
module Regex {
  import opened Bits
  import opened RegexSpec

  const MAX_MATCHES := 250

  /** Whether a byte is in a character class, by scanning its members. */
  method Includes(c: CharacterClass, test: byte) returns (included: bool)
    ensures included == c.Includes(test)
  {
    for p := 0 to |c.members|
      invariant test !in c.members[..p]
    {
      if c.members[p] == test {
        return !c.inverted;
      }
    }
    included := c.inverted;
  }

  /** `CharacterClass::last`: the first closing bracket at or after `at`, which ends the class written there. */
  method Last(text: seq<byte>, at: nat, ghost atom: Atom, ghost inverted: bool) returns (end: nat)
    requires atom.AdHoc? && WellFormedAtom(atom, inverted) && at <= |text| && EncodeAtom(atom) <= text[at..]
    ensures end == at + |EncodeAtom(atom)| - 1 && end < |text|
  {
    ghost var s := EncodeAtom(atom);
    assert forall k :: 0 <= k < |s| ==> text[at + k] == text[at..][k] == s[k];
    CloseIsLast(atom, inverted);
    end := at;
    while text[end] != CLOSE
      invariant at <= end < at + |s|
      decreases at + |s| - end
    {
      assert s[end - at] != CLOSE;
      end := end + 1;
    }
    assert s[end - at] == CLOSE;
  }

  lemma CloseIsLast(a: Atom, inverted: bool)
    requires a.AdHoc? && WellFormedAtom(a, inverted)
    ensures var s := EncodeAtom(a);
            && (forall k :: 0 <= k < |s| ==> (s[k] == CLOSE <==> k == |s| - 1))
            && |s| > 1 && (s[1] == CARET <==> a.inverted)
            && s[if a.inverted then 2 else 1..|s| - 1] == a.members
  {
    var s, o := EncodeAtom(a), if a.inverted then 2 else 1;
    forall k | 0 <= k < |s|
      ensures s[k] == CLOSE <==> k == |s| - 1
    {
      if o <= k < |s| - 1 {
        assert s[k] == a.members[k - o];
      }
    }
    if !a.inverted && a.members != [] {
      assert s[1] == a.members[0];
    }
  }

  /** `CharacterClass::set`: the class written at position `at`. A class once inverted stays inverted. */
  method SetClass(before: CharacterClass, text: seq<byte>, at: nat, ghost atom: Atom, ghost inverted: bool)
    returns (after: CharacterClass)
    requires atom.AdHoc? && WellFormedAtom(atom, inverted) && at <= |text| && EncodeAtom(atom) <= text[at..]
    ensures after == CharacterClass(atom.members, before.inverted || inverted)
  {
    CloseIsLast(atom, inverted);
    ghost var s := EncodeAtom(atom);
    assert text[at + 1] == text[at..][1] == s[1];
    var start := at + 1;
    var end := Last(text, at, atom, inverted);
    var isInverted := before.inverted;
    if text[start] == CARET {
      isInverted := true;
      start := start + 1;
    }
    after := CharacterClass(text[start..end], isInverted);
    assert text[start..end] == text[at..][..|s|][start - at..|s| - 1];
  }

  /** The list of matches, of fixed capacity. */
  class MatchCollection {
    var count: nat
    const matches: array<Match>

    constructor ()
      ensures Valid() && Contents() == [] && fresh(matches)
    {
      count := 0;
      matches := new Match[MAX_MATCHES](_ => Match(0, 0));
    }

    ghost predicate Valid()
      reads this
    {
      matches.Length == MAX_MATCHES && count <= MAX_MATCHES
    }

    ghost function Contents(): seq<Match>
      requires Valid()
      reads this, matches
    {
      matches[..count]
    }

    method Add(m: Match)
      requires Valid() && count < MAX_MATCHES
      modifies this, matches
      ensures Valid() && Contents() == old(Contents()) + [m]
    {
      matches[count] := m;
      count := count + 1;
    }
  }

  /** The class that the expression pointer stands for, if any. */
  datatype Classing = NoClass | EscapedClass(letter: byte) | AdHocClass

  /** How an attempt goes on after one byte. */
  lemma AttemptStep(p: Pattern, ignoreCase: bool, t: seq<byte>, j: nat, i: nat, hit: bool)
    requires j < |p| && i < |t| && hit == AtomMatches(p[j].atom, ignoreCase, t[i])
    ensures Attempt(p, ignoreCase, t, j, i) ==
            if p[j].quantifier.One? && !hit then Failed
            else Attempt(p, ignoreCase, t, if p[j].quantifier.Many? && hit then j else j + 1, if hit then i + 1 else i)
  {
  }

  lemma SkipStart(p: Pattern, ignoreCase: bool, t: seq<byte>, s: nat)
    requires p != [] && p[|p| - 1].quantifier.One? && s <= |t| && Attempt(p, ignoreCase, t, 0, s).Failed?
    ensures s < |t| && AllMatches(p, ignoreCase, t, s) == AllMatches(p, ignoreCase, t, s + 1)
  {
  }

  lemma TakeMatch(p: Pattern, ignoreCase: bool, t: seq<byte>, s: nat, e: nat, found: seq<Match>, all: seq<Match>)
    requires p != [] && p[|p| - 1].quantifier.One? && s <= |t| && Attempt(p, ignoreCase, t, 0, s) == Matched(e)
    requires found + AllMatches(p, ignoreCase, t, s) == all
    ensures s < e <= |t| && |found| < |all|
    ensures (found + [RegexSpec.Match(s, e - s)]) + AllMatches(p, ignoreCase, t, e) == all
  {
    AttemptAdvances(p, ignoreCase, t, 0, s);
  }

  /** The text of element j: its atom, then its quantifier, then the next element. */
  lemma AtomText(p: Pattern, j: nat)
    requires j < |p|
    ensures var (s, o, a) := (Encode(p), Offset(p, j), EncodeAtom(p[j].atom));
            && o + |a| < |s| && a <= s[o..]
            && Offset(p, j + 1) == o + |a| + (if p[j].quantifier.One? then 0 else 1) < |s|
            && (p[j].quantifier.Optional? ==> s[o + |a|] == QUESTION)
            && (p[j].quantifier.Many? ==> s[o + |a|] == STAR)
  {
    ElementText(p, j);
    var s, o, a, e := Encode(p), Offset(p, j), EncodeAtom(p[j].atom), EncodeElement(p[j]);
    assert forall k :: 0 <= k < |e| ==> s[o + k] == s[o..][k] == e[k];
    assert a == e[..|a|];
  }

  class Regex {
    const expression: seq<byte>
    const caseInsensitive: bool
    var adhoc: CharacterClass
    ghost const pattern: Pattern
    ghost const inverted: bool

    constructor (expression: seq<byte>, caseInsensitive: bool, ghost pattern: Pattern, ghost inverted: bool)
      requires WellFormed(pattern, inverted) && expression == Encode(pattern)
      ensures Valid() && this.pattern == pattern && this.caseInsensitive == caseInsensitive
    {
      this.expression, this.caseInsensitive := expression, caseInsensitive;
      this.pattern, this.inverted := pattern, inverted;
      adhoc := CharacterClass([], false);
    }

    ghost predicate Valid()
      reads this
    {
      && WellFormed(pattern, inverted) && expression == Encode(pattern)
      && (adhoc.inverted ==> inverted)
    }

    /** The expression pointer stands at element j: at its start, or at its last byte while its class is active. */
    ghost predicate AtElement(exprAt: nat, classing: Classing, j: nat)
      reads this
      requires j < |pattern|
    {
      match classing
      case NoClass => exprAt == Offset(pattern, j)
      case EscapedClass(letter) => Loaded(exprAt, j) && pattern[j].atom == Escaped(letter)
      case AdHocClass =>
        Loaded(exprAt, j) && pattern[j].atom.AdHoc?
        && adhoc == CharacterClass(pattern[j].atom.members, pattern[j].atom.inverted)
    }

    ghost predicate Loaded(exprAt: nat, j: nat)
      requires j < |pattern|
    {
      exprAt == Offset(pattern, j) + |EncodeAtom(pattern[j].atom)| - 1
    }

    /** Where a class starts, move to its last byte and make it the active class. */
    method LoadClass(p: nat, c: Classing, ghost j: nat) returns (exprAt: nat, classing: Classing)
      requires Valid() && j < |pattern| && AtElement(p, c, j)
      modifies this
      ensures Valid() && Loaded(exprAt, j) && AtElement(exprAt, classing, j)
      ensures classing.NoClass? <==> pattern[j].atom.Literal? || pattern[j].atom.Any?
    {
      exprAt, classing := p, c;
      ghost var atom := pattern[j].atom;
      assert WellFormedAtom(atom, inverted);
      AtomText(pattern, j);
      if classing.NoClass? {
        assert expression[exprAt] == expression[exprAt..][0] == EncodeAtom(atom)[0];
        if expression[exprAt] == BACKSLASH {
          assert expression[exprAt + 1] == expression[exprAt..][1] == EncodeAtom(atom)[1];
          exprAt := exprAt + 1;
          if IsEscape(expression[exprAt]) {
            classing := EscapedClass(expression[exprAt]);
          }
        } else if expression[exprAt] == OPEN {
          adhoc := SetClass(adhoc, expression, exprAt, atom, inverted);
          classing := AdHocClass;
          exprAt := Last(expression, exprAt, atom, inverted);
        }
      }
    }

    /** Whether the byte of text c is what element j stands for. */
    method Test(exprAt: nat, classing: Classing, c: byte, ghost j: nat) returns (hit: bool)
      requires Valid() && j < |pattern| && Loaded(exprAt, j) && AtElement(exprAt, classing, j)
      requires classing.NoClass? <==> pattern[j].atom.Literal? || pattern[j].atom.Any?
      ensures hit == AtomMatches(pattern[j].atom, caseInsensitive, c)
    {
      AtomText(pattern, j);
      assert WellFormedAtom(pattern[j].atom, inverted);
      match classing
      case EscapedClass(letter) =>
        hit := Includes(Predefined(letter), c);
      case AdHocClass =>
        hit := Includes(adhoc, c);
      case NoClass =>
        assert expression[exprAt] == expression[exprAt..][0] == EncodeAtom(pattern[j].atom)[0];
        var exactMatch := c == expression[exprAt];
        var caselessMatch := caseInsensitive &&
          ((c < 0x61 && c + 0x20 == expression[exprAt]) || (c > 0x5A && c - 0x20 == expression[exprAt]));
        var wildcardMatch := expression[exprAt] == DOT;
        hit := exactMatch || caselessMatch || wildcardMatch;
    }

    /** The byte after element j's atom tells its quantifier, and how far the next element is. */
    lemma AfterAtom(exprAt: nat, j: nat)
      requires Valid() && j < |pattern| && Loaded(exprAt, j)
      ensures exprAt + 1 < |expression|
      ensures expression[exprAt + 1] == QUESTION <==> pattern[j].quantifier.Optional?
      ensures expression[exprAt + 1] == STAR <==> pattern[j].quantifier.Many?
      ensures expression[exprAt + 1] != PLUS
      ensures Offset(pattern, j + 1) == exprAt + if pattern[j].quantifier.One? then 1 else 2
      ensures Offset(pattern, j + 1) < |expression|
      ensures expression[Offset(pattern, j + 1)] == 0 <==> j + 1 == |pattern|
    {
      hide EncodeAtom, Encode, Offset, WellFormed;
      AtomText(pattern, j);
      FirstByte(pattern, inverted, j + 1);
    }

    /** One turn of the engine on the byte at textAt: either it does not match, or the pointers move and the attempt
        goes on. */
    method Advance(t: seq<byte>, textWas: nat, exprWas: nat, classingWas: Classing, lookaheadWas: nat, ghost jWas: nat)
      returns (isMatch: bool, textAt: nat, exprAt: nat, classing: Classing, lookahead: nat, ghost j: nat)
      requires Valid() && textWas < |t| && jWas < |pattern| && AtElement(exprWas, classingWas, jWas)
      requires lookaheadWas == 0 || (lookaheadWas == 1 && pattern[jWas].quantifier.Many?)
      modifies this
      ensures Valid() && exprAt < |expression|
      ensures !isMatch ==> lookahead == 0 && Attempt(pattern, caseInsensitive, t, jWas, textWas) == Failed
      ensures isMatch ==> jWas <= j <= |pattern| && textWas <= textAt <= |t| && (j == jWas ==> textWas < textAt)
      ensures isMatch ==>
                Attempt(pattern, caseInsensitive, t, j, textAt) == Attempt(pattern, caseInsensitive, t, jWas, textWas)
      ensures isMatch ==> (expression[exprAt] == 0 <==> j == |pattern|)
      ensures isMatch && j == |pattern| ==> lookahead == 0 && classing.NoClass?
      ensures isMatch && j < |pattern| ==> AtElement(exprAt, classing, j)
      ensures isMatch && j < |pattern| ==> lookahead == 0 || (lookahead == 1 && pattern[j].quantifier.Many?)
    {
      hide Attempt, AtomMatches, EncodeAtom, Encode, Offset, WellFormed;
      textAt, lookahead, j := textWas, lookaheadWas, jWas;
      exprAt, classing := LoadClass(exprWas, classingWas, j);
      AfterAtom(exprAt, j);
      if IsQuantifier(expression[exprAt + 1]) {
        lookahead := 1;
      }
      var zeroOrOneMatch := expression[exprAt + 1] == QUESTION;
      var zeroOrMoreMatch := expression[exprAt + 1] == STAR;
      var oneOrMoreMatch := expression[exprAt + 1] == PLUS;
      var unconditionalMatch := Test(exprAt, classing, t[textAt], j);
      var moreMatch := (zeroOrMoreMatch || oneOrMoreMatch) && unconditionalMatch;
      var zeroMatch := (zeroOrOneMatch || zeroOrMoreMatch || oneOrMoreMatch) && !unconditionalMatch;
      isMatch := unconditionalMatch || zeroMatch;
      AttemptStep(pattern, caseInsensitive, t, j, textAt, unconditionalMatch);
      if !isMatch {
        return;
      }
      if zeroMatch {
        exprAt := exprAt + 1 + lookahead;
        lookahead := 0;
        classing := NoClass;
        j := j + 1;
      } else if moreMatch {
        textAt := textAt + 1;
        NotNul(exprAt, j);
      } else {
        textAt := textAt + 1;
        exprAt := exprAt + 1 + lookahead;
        lookahead := 0;
        classing := NoClass;
        j := j + 1;
      }
    }

    /** The last byte of an atom is not the terminating NUL, and for a single-byte atom it is also its first byte. */
    lemma NotNul(exprAt: nat, j: nat)
      requires Valid() && j < |pattern| && Loaded(exprAt, j)
      ensures exprAt < |expression| && expression[exprAt] != 0
    {
      var a := EncodeAtom(pattern[j].atom);
      AtomText(pattern, j);
      assert WellFormedAtom(pattern[j].atom, inverted);
      assert expression[exprAt] == expression[Offset(pattern, j)..][|a| - 1] == a[|a| - 1];
    }

    /** A complete match from matchAt up to textAt goes into the list. */
    method Capture(matches: MatchCollection, matchAt: nat, end: nat, t: seq<byte>, ghost all: seq<Match>)
      requires Valid() && matches.Valid() && matchAt <= |t|
      requires Attempt(pattern, caseInsensitive, t, 0, matchAt) == Matched(end)
      requires |all| <= MAX_MATCHES && matches.Contents() + AllMatches(pattern, caseInsensitive, t, matchAt) == all
      modifies matches, matches.matches
      ensures matches.Valid() && matchAt < end <= |t|
      ensures matches.Contents() + AllMatches(pattern, caseInsensitive, t, end) == all
    {
      TakeMatch(pattern, caseInsensitive, t, matchAt, end, matches.Contents(), all);
      var textAt := end - 1;
      matches.Add(RegexSpec.Match(matchAt, textAt - matchAt + 1));
    }

    /** Finds all the leftmost, non-overlapping possessive matches of the pattern in a text, which either ends at its
        first NUL byte or is given with its length. */
    method Match(t: seq<byte>, length: nat := 0) returns (matches: MatchCollection)
      requires Valid() && if length == 0 then 0 !in t else length == |t| < 0x1_0000
      requires |AllMatches(pattern, caseInsensitive, t, 0)| <= MAX_MATCHES
      modifies this
      ensures Valid() && matches.Valid() && fresh(matches)
      ensures matches.Contents() == AllMatches(pattern, caseInsensitive, t, 0)
    {
      ghost var p, ci, all := pattern, caseInsensitive, AllMatches(pattern, caseInsensitive, t, 0);
      var textAt: nat, exprAt: nat, matchAt: nat := 0, 0, 0;
      var classing := NoClass;
      var lookahead: nat := 0;
      ghost var j: nat := 0;
      matches := new MatchCollection();

      while (textAt < |t| && length == 0) || textAt < length
        invariant Valid() && matches.Valid() && fresh(matches) && fresh(matches.matches)
        invariant matchAt <= textAt <= |t| && j < |p| && AtElement(exprAt, classing, j)
        invariant lookahead == 0 || (lookahead == 1 && p[j].quantifier.Many?)
        invariant Attempt(p, ci, t, 0, matchAt) == Attempt(p, ci, t, j, textAt)
        invariant matches.Contents() + AllMatches(p, ci, t, matchAt) == all
        decreases |t| - matchAt, |p| - j, |t| - textAt
      {
        var isMatch;
        isMatch, textAt, exprAt, classing, lookahead, j := Advance(t, textAt, exprAt, classing, lookahead, j);
        if !isMatch {
          SkipStart(p, ci, t, matchAt);
          exprAt := 0;
          textAt := matchAt + 1;
          matchAt := textAt;
          classing := NoClass;
          j := 0;
          continue;
        }
        if expression[exprAt] == 0 {
          Capture(matches, matchAt, textAt, t, all);
          exprAt := 0;
          matchAt := textAt;
          j := 0;
        }
      }
      if matchAt < |t| {
        NoMatchesAfterRunOff(p, ci, t, matchAt, matchAt);
      }
    }
  }
}
