/**
 The patterns the expression engine has clean semantics for, how they are written, and what matching them means.
 */
module RegexSpec {
  import opened Bits

  const BACKSLASH: byte := 0x5C
  const OPEN: byte := 0x5B      // [
  const CLOSE: byte := 0x5D     // ]
  const CARET: byte := 0x5E
  const DOLLAR: byte := 0x24
  const DOT: byte := 0x2E
  const QUESTION: byte := 0x3F
  const STAR: byte := 0x2A
  const PLUS: byte := 0x2B

  const ESCAPE_DIGIT: byte := 0x64
  const ESCAPE_NOT_DIGIT: byte := 0x44
  const ESCAPE_LETTER: byte := 0x77
  const ESCAPE_NOT_LETTER: byte := 0x57
  const ESCAPE_SPACE: byte := 0x73
  const ESCAPE_NOT_SPACE: byte := 0x53

  datatype Quantifier = One | Optional | Many
  datatype Atom =
    | Literal(c: byte)
    | Any
    | Escaped(letter: byte)
    | AdHoc(members: seq<byte>, inverted: bool)
  datatype Element = Element(atom: Atom, quantifier: Quantifier)
  type Pattern = seq<Element>

  // ---------- Writing a pattern ----------

  function EncodeAtom(a: Atom): (s: seq<byte>)
    ensures |s| > 0
  {
    match a
    case Literal(c) => [c]
    case Any => [DOT]
    case Escaped(letter) => [BACKSLASH, letter]
    case AdHoc(members, inverted) => [OPEN] + (if inverted then [CARET] else []) + members + [CLOSE]
  }

  function EncodeQuantifier(q: Quantifier): seq<byte> {
    match q
    case One => []
    case Optional => [QUESTION]
    case Many => [STAR]
  }

  function EncodeElement(e: Element): seq<byte> {
    EncodeAtom(e.atom) + EncodeQuantifier(e.quantifier)
  }

  /** The text of the elements before j. */
  function Before(p: Pattern, j: nat): seq<byte>
    requires j <= |p|
  {
    if j == 0 then [] else Before(p, j - 1) + EncodeElement(p[j - 1])
  }

  /** The pattern as the NUL-terminated string that is passed to the engine. */
  function Encode(p: Pattern): seq<byte> {
    Before(p, |p|) + [0]
  }

  /** Where element j starts in the text of the pattern. */
  function Offset(p: Pattern, j: nat): nat
    requires j <= |p|
  {
    |Before(p, j)|
  }

  predicate Reserved(c: byte) {
    c == 0 || c == BACKSLASH || c == OPEN || c == DOT || c == CARET || c == DOLLAR || IsQuantifier(c)
  }

  predicate IsQuantifier(c: byte) {
    c == QUESTION || c == STAR || c == PLUS
  }

  predicate IsEscape(c: byte) {
    || c == ESCAPE_DIGIT || c == ESCAPE_NOT_DIGIT || c == ESCAPE_LETTER || c == ESCAPE_NOT_LETTER
    || c == ESCAPE_SPACE || c == ESCAPE_NOT_SPACE
  }

  predicate WellFormedAtom(a: Atom, inverted: bool) {
    match a
    case Literal(c) => !Reserved(c)
    case Any => true
    case Escaped(letter) => IsEscape(letter)
    case AdHoc(members, inv) =>
      inv == inverted && CLOSE !in members && 0 !in members && (!inv && members != [] ==> members[0] != CARET)
  }

  /** The fragment: the last element is a plain one, and the ad-hoc classes are all inverted or all plain. */
  predicate WellFormed(p: Pattern, inverted: bool) {
    && p != [] && p[|p| - 1].quantifier.One?
    && forall j :: 0 <= j < |p| ==> WellFormedAtom(p[j].atom, inverted)
  }

  ghost predicate IsPrefix(a: seq<byte>, b: seq<byte>) {
    |a| <= |b| && b[..|a|] == a
  }

  lemma PrefixGrows(a: seq<byte>, b: seq<byte>, c: seq<byte>)
    requires IsPrefix(a, b)
    ensures IsPrefix(a, b + c)
  {
    assert (b + c)[..|a|] == b[..|a|];
  }

  lemma {:induction false} BeforePrefix(p: Pattern, i: nat, j: nat)
    requires i <= j <= |p|
    ensures IsPrefix(Before(p, i), Before(p, j))
    decreases j
  {
    hide EncodeElement;
    if i == j {
    } else {
      assert Before(p, j) == Before(p, j - 1) + EncodeElement(p[j - 1]);
      hide Before, IsPrefix;
      BeforePrefix(p, i, j - 1);
      PrefixGrows(Before(p, i), Before(p, j - 1), EncodeElement(p[j - 1]));
    }
  }

  /** The text of element j starts at its offset, and the next element follows it. */
  lemma ElementText(p: Pattern, j: nat)
    requires j < |p|
    ensures Offset(p, j + 1) == Offset(p, j) + |EncodeElement(p[j])| < |Encode(p)|
    ensures EncodeElement(p[j]) <= Encode(p)[Offset(p, j)..]
  {
    BeforePrefix(p, j + 1, |p|);
    PrefixGrows(Before(p, j + 1), Before(p, |p|), [0]);
    assert Encode(p)[Offset(p, j)..Offset(p, j + 1)] == Before(p, j + 1)[Offset(p, j)..] == EncodeElement(p[j]);
  }

  /** The byte at the start of an element is not a quantifier, and it is NUL only after the last one. */
  lemma FirstByte(p: Pattern, inverted: bool, j: nat)
    requires WellFormed(p, inverted) && j <= |p|
    ensures Offset(p, j) < |Encode(p)| && !IsQuantifier(Encode(p)[Offset(p, j)])
    ensures Encode(p)[Offset(p, j)] == 0 <==> j == |p|
  {
    if j < |p| {
      ElementText(p, j);
      var a := EncodeAtom(p[j].atom);
      assert Encode(p)[Offset(p, j)] == Encode(p)[Offset(p, j)..][0] == EncodeElement(p[j])[0] == a[0];
      assert WellFormedAtom(p[j].atom, inverted);
    }
  }

  // ---------- Character classes ----------

  /** The bytes from lo to hi, which the source writes out one by one. */
  function Range(lo: byte, hi: byte): (s: seq<byte>)
    requires lo <= hi
    ensures forall c: byte :: c in s <==> lo <= c <= hi
    decreases hi - lo
  {
    if lo == hi then [lo] else [lo] + Range(lo + 1, hi)
  }

  const DIGITS := Range(0x30, 0x39)
  const LETTERS := Range(0x41, 0x5A) + Range(0x61, 0x7A)
  const WHITESPACE: seq<byte> := [0x09, 0x0D, 0x0A, 0x20]

  datatype CharacterClass = CharacterClass(members: seq<byte>, inverted: bool) {
    predicate Includes(c: byte) {
      (c in members) != inverted
    }
  }

  function Predefined(letter: byte): CharacterClass {
    if letter == ESCAPE_DIGIT then CharacterClass(DIGITS, false)
    else if letter == ESCAPE_NOT_DIGIT then CharacterClass(DIGITS, true)
    else if letter == ESCAPE_LETTER then CharacterClass(LETTERS, false)
    else if letter == ESCAPE_NOT_LETTER then CharacterClass(LETTERS, true)
    else if letter == ESCAPE_SPACE then CharacterClass(WHITESPACE, false)
    else CharacterClass(WHITESPACE, true)
  }

  lemma InRange(lo: byte, hi: byte, c: byte)
    requires lo <= hi
    ensures c in Range(lo, hi) <==> lo <= c <= hi
  {
  }

  lemma LettersListed(c: byte)
    ensures c in LETTERS <==> IsLetter(c)
  {
    hide Range;
    InRange(0x41, 0x5A, c);
    InRange(0x61, 0x7A, c);
    assert c in LETTERS <==> c in Range(0x41, 0x5A) || c in Range(0x61, 0x7A);
  }

  /** What the six predefined classes contain: `\d` and `\D`, `\w` and `\W`, `\s` and `\S`. */
  lemma PredefinedMeaning(c: byte)
    ensures Predefined(0x64).Includes(c) <==> 0x30 <= c <= 0x39
    ensures Predefined(0x44).Includes(c) <==> !(0x30 <= c <= 0x39)
    ensures Predefined(0x77).Includes(c) <==> 0x41 <= c <= 0x5A || 0x61 <= c <= 0x7A
    ensures Predefined(0x57).Includes(c) <==> !(0x41 <= c <= 0x5A || 0x61 <= c <= 0x7A)
    ensures Predefined(0x73).Includes(c) <==> c == 0x09 || c == 0x0A || c == 0x0D || c == 0x20
    ensures Predefined(0x53).Includes(c) <==> !(c == 0x09 || c == 0x0A || c == 0x0D || c == 0x20)
  {
    hide Range;
    InRange(0x30, 0x39, c);
    LettersListed(c);
  }

  /** A literal against a byte of text, as the engine compares them. */
  predicate LiteralMatches(l: byte, ignoreCase: bool, c: byte) {
    c == l || (ignoreCase && ((c < 0x61 && c + 0x20 == l) || (c > 0x5A && c - 0x20 == l)))
  }

  predicate AtomMatches(a: Atom, ignoreCase: bool, c: byte) {
    match a
    case Literal(l) => LiteralMatches(l, ignoreCase, c)
    case Any => true
    case Escaped(letter) => Predefined(letter).Includes(c)
    case AdHoc(members, inverted) => CharacterClass(members, inverted).Includes(c)
  }

  predicate IsUpper(c: byte) {
    0x41 <= c <= 0x5A
  }

  predicate IsLetter(c: byte) {
    IsUpper(c) || 0x61 <= c <= 0x7A
  }

  function Fold(c: byte): byte {
    if IsUpper(c) then c + 0x20 else c
  }

  /** Ignoring case also equates bytes that are 0x20 apart without being the two cases of one letter:
      the comparison agrees with ASCII case folding exactly where neither byte is such a neighbour. */
  lemma CaseFoldingExactlyWhen(l: byte, c: byte)
    ensures (LiteralMatches(l, true, c) <==> Fold(c) == Fold(l))
            <==> !(c < 0x61 && c + 0x20 == l && !IsUpper(c)) && !(c > 0x5A && c - 0x20 == l && !IsUpper(l))
  {
  }

  /** For example '!' is accepted for the letter 'A'. */
  lemma CaseFoldingFails()
    ensures LiteralMatches(0x41, true, 0x21) && Fold(0x41) != Fold(0x21)
  {
  }

  // ---------- Reading a pattern ----------

  /** How many bytes come before the first closing bracket. */
  function ClassEnd(s: seq<byte>): (k: nat)
    ensures k <= |s|
  {
    if s == [] || s[0] == 0x5D then 0 else 1 + ClassEnd(s[1..])
  }

  /** The atom at the start of a text, and what follows it. */
  function ReadAtom(s: seq<byte>): (r: (Atom, seq<byte>))
    requires s != []
    ensures |r.1| < |s|
  {
    if s[0] == 0x5C && |s| > 1 then (Escaped(s[1]), s[2..])
    else if s[0] == 0x5B then
      var body := s[1..ClassEnd(s[1..]) + 1];
      var rest := if ClassEnd(s[1..]) + 1 < |s| then s[ClassEnd(s[1..]) + 2..] else [];
      if body != [] && body[0] == 0x5E then (AdHoc(body[1..], true), rest) else (AdHoc(body, false), rest)
    else (if s[0] == 0x2E then Any else Literal(s[0]), s[1..])
  }

  /** The pattern that a NUL-terminated text stands for. */
  function Read(s: seq<byte>): Pattern
    decreases |s|
  {
    if s == [] || s[0] == 0 then []
    else
      var (atom, rest) := ReadAtom(s);
      if rest != [] && rest[0] == 0x3F then [Element(atom, Optional)] + Read(rest[1..])
      else if rest != [] && rest[0] == 0x2A then [Element(atom, Many)] + Read(rest[1..])
      else [Element(atom, One)] + Read(rest)
  }

  lemma {:induction false} ClassEndOf(members: seq<byte>, rest: seq<byte>)
    requires 0x5D !in members
    ensures ClassEnd(members + ([0x5D] + rest)) == |members|
    decreases |members|
  {
    if members == [] {
    } else {
      assert (members + ([0x5D] + rest))[1..] == members[1..] + ([0x5D] + rest);
      ClassEndOf(members[1..], rest);
    }
  }

  lemma ReadClass(members: seq<byte>, inverted: bool, rest: seq<byte>)
    requires WellFormedAtom(AdHoc(members, inverted), inverted)
    ensures ReadAtom(EncodeAtom(AdHoc(members, inverted)) + rest) == (AdHoc(members, inverted), rest)
  {
    var body := (if inverted then [CARET] else []) + members;
    var s := [0x5B] + (body + ([0x5D] + rest));
    assert EncodeAtom(AdHoc(members, inverted)) + rest == s;
    assert s[1..] == body + ([0x5D] + rest);
    ClassEndOf(body, rest);
    hide ClassEnd;
    assert s[1..|body| + 1] == body && s[|body| + 2..] == rest;
    if inverted {
      assert body[0] == 0x5E && body[1..] == members;
    } else {
      assert body == members;
    }
  }

  lemma ReadAtomRoundTrip(a: Atom, inverted: bool, rest: seq<byte>)
    requires WellFormedAtom(a, inverted)
    ensures ReadAtom(EncodeAtom(a) + rest) == (a, rest)
  {
    if a.AdHoc? {
      ReadClass(a.members, a.inverted, rest);
    } else {
      assert (EncodeAtom(a) + rest)[|EncodeAtom(a)|..] == rest;
    }
  }

  /** The text of the elements from j on. */
  function Tail(p: Pattern, j: nat): seq<byte>
    requires j <= |p|
    decreases |p| - j
  {
    if j == |p| then [0] else EncodeElement(p[j]) + Tail(p, j + 1)
  }

  lemma TailEnd(p: Pattern)
    ensures Tail(p, |p|) == [0] && Read([0]) == [] && Before(p, |p|) + [0] == Encode(p)
  {
  }

  lemma TailStep(p: Pattern, j: nat)
    requires j < |p|
    ensures Tail(p, j) == EncodeElement(p[j]) + Tail(p, j + 1)
    ensures Before(p, j) + Tail(p, j) == Before(p, j + 1) + Tail(p, j + 1)
  {
    hide EncodeElement;
    Regroup(Before(p, j), EncodeElement(p[j]), Tail(p, j + 1));
  }

  lemma {:induction false} TailIsEncode(p: Pattern, j: nat)
    requires j <= |p|
    ensures Before(p, j) + Tail(p, j) == Encode(p)
    decreases |p| - j
  {
    hide Before, Tail, Encode;
    if j == |p| {
      TailEnd(p);
    } else {
      TailStep(p, j);
      TailIsEncode(p, j + 1);
    }
  }

  lemma {:induction false} ReadTail(p: Pattern, inverted: bool, j: nat)
    requires j <= |p| && forall i :: 0 <= i < |p| ==> WellFormedAtom(p[i].atom, inverted)
    ensures Read(Tail(p, j)) == p[j..]
    ensures Tail(p, j) != [] && Tail(p, j)[0] != 0x3F && Tail(p, j)[0] != 0x2A
    decreases |p| - j
  {
    hide Tail, EncodeElement, WellFormedAtom, Read, Before;
    if j == |p| {
      TailEnd(p);
    } else {
      TailStep(p, j);
      ReadTail(p, inverted, j + 1);
      ReadElement(p[j], inverted, Tail(p, j + 1));
      FirstOf(p, j);
    }
  }

  lemma FirstOf(p: Pattern, j: nat)
    requires j < |p|
    ensures p[j..] == [p[j]] + p[j + 1..]
  {
  }

  lemma FirstOfAtom(a: Atom, inverted: bool)
    requires WellFormedAtom(a, inverted)
    ensures EncodeAtom(a)[0] != 0 && EncodeAtom(a)[0] != 0x3F && EncodeAtom(a)[0] != 0x2A
  {
  }

  lemma ReadElement(e: Element, inverted: bool, after: seq<byte>)
    requires WellFormedAtom(e.atom, inverted) && after != [] && after[0] != 0x3F && after[0] != 0x2A
    ensures Read(EncodeElement(e) + after) == [e] + Read(after)
    ensures (EncodeElement(e) + after)[0] != 0x3F && (EncodeElement(e) + after)[0] != 0x2A
  {
    var a, q := EncodeAtom(e.atom), EncodeQuantifier(e.quantifier);
    FirstOfAtom(e.atom, inverted);
    Regroup(a, q, after);
    ReadAtomRoundTrip(e.atom, inverted, q + after);
    assert e.quantifier.One? ==> q + after == after;
    assert !e.quantifier.One? ==> (q + after)[1..] == after;
    hide EncodeAtom, ReadAtom, WellFormedAtom;
  }

  /** The written form of a pattern is read back as that pattern, so the text that is passed to the engine stands for
      one pattern only. */
  lemma ReadBack(p: Pattern, inverted: bool)
    requires WellFormed(p, inverted)
    ensures Read(Encode(p)) == p
  {
    TailIsEncode(p, 0);
    assert Before(p, 0) + Tail(p, 0) == Tail(p, 0);
    ReadTail(p, inverted, 0);
  }

  // ---------- Matching ----------

  /** The text from i to k is what one element takes: possessively, that is, as much as it can. */
  ghost predicate Takes(e: Element, ignoreCase: bool, t: seq<byte>, i: nat, k: nat) {
    i <= k <= |t| &&
    if e.quantifier.One? then k == i + 1 && AtomMatches(e.atom, ignoreCase, t[i])
    else if e.quantifier.Optional? then k == if i < |t| && AtomMatches(e.atom, ignoreCase, t[i]) then i + 1 else i
    else TakesAll(e.atom, ignoreCase, t, i, k)
  }

  ghost predicate TakesAll(a: Atom, ignoreCase: bool, t: seq<byte>, i: nat, k: nat)
    requires i <= k <= |t|
  {
    && (forall x :: i <= x < k ==> AtomMatches(a, ignoreCase, t[x]))
    && (k < |t| ==> !AtomMatches(a, ignoreCase, t[k]))
  }

  /** The elements from j on take the text between consecutive cuts. */
  ghost predicate IsSplit(p: Pattern, ignoreCase: bool, t: seq<byte>, j: nat, cuts: seq<nat>) {
    && j <= |p| && |cuts| == |p| - j + 1
    && forall x :: 0 <= x < |p| - j ==> Takes(p[j + x], ignoreCase, t, cuts[x], cuts[x + 1])
  }

  /** The whole pattern matches the text from s to e. */
  ghost predicate Matches(p: Pattern, ignoreCase: bool, t: seq<byte>, s: nat, e: nat) {
    exists cuts :: IsSplit(p, ignoreCase, t, 0, cuts) && cuts[0] == s && cuts[|p|] == e
  }

  /** What one element asks of a byte: a dot takes any byte, a literal takes itself, and with case ignored also what lies
      0x20 below it or above it; a class in brackets takes its members, or the others if it begins with a caret. */
  lemma AtomMeaning(c: byte, l: byte, members: seq<byte>, ignoreCase: bool)
    ensures AtomMatches(Any, ignoreCase, c)
    ensures AtomMatches(Literal(l), false, c) <==> c == l
    ensures AtomMatches(Literal(l), true, c) <==> c == l || (c < 0x61 && l == c + 0x20) || (c > 0x5A && l == c - 0x20)
    ensures AtomMatches(AdHoc(members, false), ignoreCase, c) <==> c in members
    ensures AtomMatches(AdHoc(members, true), ignoreCase, c) <==> c !in members
  {
  }

  /** The text from s to e is a run of bytes x and then one byte y. */
  predicate RunThen(t: seq<byte>, x: byte, y: byte, s: nat, e: nat) {
    s < e <= |t| && t[e - 1] == y && forall i :: s <= i < e - 1 ==> t[i] == x
  }

  predicate Plain(x: byte) {
    !Reserved(x)
  }

  /** The pattern `x*y`, for bytes x and y without a meaning of their own, matches exactly the runs of x that a y
      follows, except that y must not be x: a run is taken as a whole, and none is left for it. */
  lemma StarMeaning(x: byte, y: byte, t: seq<byte>, s: nat, e: nat)
    requires Plain(x) && Plain(y)
    ensures Matches(Read([x, 0x2A, y, 0]), false, t, s, e) <==> x != y && RunThen(t, x, y, s, e)
  {
    var a, b := Element(Literal(x), Many), Element(Literal(y), One);
    ReadPair(x, 0x2A, y);
    var p := [a, b];
    if Matches(p, false, t, s, e) {
      var cuts :| IsSplit(p, false, t, 0, cuts) && cuts[0] == s && cuts[|p|] == e;
      assert Takes(p[0 + 0], false, t, cuts[0], cuts[1]) && Takes(p[0 + 1], false, t, cuts[1], cuts[2]);
    }
    if x != y && RunThen(t, x, y, s, e) {
      var cuts := [s, e - 1, e];
      assert Takes(p[0], false, t, s, e - 1) && Takes(p[1], false, t, e - 1, e);
      assert IsSplit(p, false, t, 0, cuts);
    }
  }

  /** The pattern `x?y` matches exactly y alone, and x and then y, where x is taken whenever it is there. */
  lemma OptionalMeaning(x: byte, y: byte, t: seq<byte>, s: nat, e: nat)
    requires Plain(x) && Plain(y)
    ensures Matches(Read([x, 0x3F, y, 0]), false, t, s, e)
            <==> e <= |t| && ((e == s + 1 && t[s] == y && x != y) || (e == s + 2 && t[s] == x && t[s + 1] == y))
  {
    var a, b := Element(Literal(x), Optional), Element(Literal(y), One);
    ReadPair(x, 0x3F, y);
    var p := [a, b];
    if Matches(p, false, t, s, e) {
      var cuts :| IsSplit(p, false, t, 0, cuts) && cuts[0] == s && cuts[|p|] == e;
      assert Takes(p[0 + 0], false, t, cuts[0], cuts[1]) && Takes(p[0 + 1], false, t, cuts[1], cuts[2]);
    }
    if e <= |t| && ((e == s + 1 && t[s] == y && x != y) || (e == s + 2 && t[s] == x && t[s + 1] == y)) {
      var cuts := [s, e - 1, e];
      assert Takes(p[0], false, t, s, e - 1) && Takes(p[1], false, t, e - 1, e);
      assert IsSplit(p, false, t, 0, cuts);
    }
  }

  lemma ReadPair(x: byte, q: byte, y: byte)
    requires Plain(x) && Plain(y) && (q == 0x3F || q == 0x2A)
    ensures Read([x, q, y, 0]) == [Element(Literal(x), if q == 0x3F then Optional else Many), Element(Literal(y), One)]
  {
    assert [x, q, y, 0][1..] == [q, y, 0] && [q, y, 0][1..] == [y, 0] && [y, 0][1..] == [0];
    assert Read([0]) == [];
    assert Read([y, 0]) == [Element(Literal(y), One)];
  }

  datatype Outcome = Matched(end: nat) | Failed | RanOff

  /** The course of one attempt: element j meets the text at i. It runs off when the text ends first. */
  function Attempt(p: Pattern, ignoreCase: bool, t: seq<byte>, j: nat, i: nat): Outcome
    requires j <= |p|
    decreases |p| - j, |t| - i
  {
    if j == |p| then Matched(i)
    else if i >= |t| then RanOff
    else
      var hit := AtomMatches(p[j].atom, ignoreCase, t[i]);
      match p[j].quantifier
      case One => if hit then Attempt(p, ignoreCase, t, j + 1, i + 1) else Failed
      case Optional => Attempt(p, ignoreCase, t, j + 1, if hit then i + 1 else i)
      case Many => if hit then Attempt(p, ignoreCase, t, j, i + 1) else Attempt(p, ignoreCase, t, j + 1, i)
  }

  lemma {:induction false} AttemptSound(p: Pattern, ignoreCase: bool, t: seq<byte>, j: nat, i: nat) returns (cuts: seq<nat>)
    requires j <= |p| && i <= |t| && Attempt(p, ignoreCase, t, j, i).Matched?
    ensures IsSplit(p, ignoreCase, t, j, cuts)
    ensures cuts[0] == i && cuts[|p| - j] == Attempt(p, ignoreCase, t, j, i).end
    decreases |p| - j, |t| - i
  {
    if j == |p| {
      cuts := [i];
    } else {
      var hit := AtomMatches(p[j].atom, ignoreCase, t[i]);
      if p[j].quantifier.Many? && hit {
        var rest := AttemptSound(p, ignoreCase, t, j, i + 1);
        assert Takes(p[j + 0], ignoreCase, t, rest[0], rest[1]);
        cuts := rest[0 := i];
        assert forall x :: 0 < x < |p| - j ==> Takes(p[j + x], ignoreCase, t, rest[x], rest[x + 1]);
      } else {
        var k := if hit then i + 1 else i;
        var rest := AttemptSound(p, ignoreCase, t, j + 1, k);
        cuts := [i] + rest;
        assert Takes(p[j], ignoreCase, t, i, k);
        forall x | 0 < x < |p| - j
          ensures Takes(p[j + x], ignoreCase, t, cuts[x], cuts[x + 1])
        {
          assert Takes(p[j + 1 + (x - 1)], ignoreCase, t, rest[x - 1], rest[x]);
        }
      }
    }
  }

  /** A pattern whose last element is plain needs at least one byte of text. */
  lemma {:induction false} NothingAtEnd(p: Pattern, ignoreCase: bool, t: seq<byte>, j: nat, cuts: seq<nat>)
    requires j < |p| && p[|p| - 1].quantifier.One? && IsSplit(p, ignoreCase, t, j, cuts)
    ensures cuts[0] < |t|
    decreases |p| - j
  {
    assert Takes(p[j + 0], ignoreCase, t, cuts[0], cuts[1]);
    if j + 1 < |p| {
      forall x | 0 <= x < |p| - (j + 1)
        ensures Takes(p[j + 1 + x], ignoreCase, t, cuts[1..][x], cuts[1..][x + 1])
      {
        assert Takes(p[j + (x + 1)], ignoreCase, t, cuts[x + 1], cuts[x + 2]);
      }
      NothingAtEnd(p, ignoreCase, t, j + 1, cuts[1..]);
    }
  }

  lemma {:induction false} AttemptComplete(p: Pattern, ignoreCase: bool, t: seq<byte>, j: nat, cuts: seq<nat>)
    requires p != [] && p[|p| - 1].quantifier.One? && IsSplit(p, ignoreCase, t, j, cuts)
    ensures Attempt(p, ignoreCase, t, j, cuts[0]) == Matched(cuts[|p| - j])
    decreases |p| - j, |t| - cuts[0]
  {
    if j < |p| {
      NothingAtEnd(p, ignoreCase, t, j, cuts);
      assert Takes(p[j + 0], ignoreCase, t, cuts[0], cuts[1]);
      if p[j].quantifier.Many? && cuts[0] < cuts[1] {
        var moved := cuts[0 := cuts[0] + 1];
        forall x | 0 <= x < |p| - j
          ensures Takes(p[j + x], ignoreCase, t, moved[x], moved[x + 1])
        {
          assert Takes(p[j + x], ignoreCase, t, cuts[x], cuts[x + 1]);
        }
        AttemptComplete(p, ignoreCase, t, j, moved);
      } else {
        forall x | 0 <= x < |p| - (j + 1)
          ensures Takes(p[j + 1 + x], ignoreCase, t, cuts[1..][x], cuts[1..][x + 1])
        {
          assert Takes(p[j + (x + 1)], ignoreCase, t, cuts[x + 1], cuts[x + 2]);
        }
        AttemptComplete(p, ignoreCase, t, j + 1, cuts[1..]);
      }
    }
  }

  /** An attempt succeeds exactly where the pattern matches, and ends where the match ends. */
  lemma AttemptExact(p: Pattern, ignoreCase: bool, t: seq<byte>, s: nat, e: nat)
    requires p != [] && p[|p| - 1].quantifier.One? && s <= |t|
    ensures Attempt(p, ignoreCase, t, 0, s) == Matched(e) <==> Matches(p, ignoreCase, t, s, e)
  {
    if Attempt(p, ignoreCase, t, 0, s) == Matched(e) {
      var cuts := AttemptSound(p, ignoreCase, t, 0, s);
    }
    if Matches(p, ignoreCase, t, s, e) {
      var cuts :| IsSplit(p, ignoreCase, t, 0, cuts) && cuts[0] == s && cuts[|p|] == e;
      AttemptComplete(p, ignoreCase, t, 0, cuts);
    }
  }

  /** A match is never empty. */
  lemma {:induction false} AttemptAdvances(p: Pattern, ignoreCase: bool, t: seq<byte>, j: nat, i: nat)
    requires j < |p| && p[|p| - 1].quantifier.One? && Attempt(p, ignoreCase, t, j, i).Matched?
    ensures i < Attempt(p, ignoreCase, t, j, i).end <= |t|
    decreases |p| - j, |t| - i
  {
    var hit := AtomMatches(p[j].atom, ignoreCase, t[i]);
    if p[j].quantifier.Many? && hit {
      AttemptAdvances(p, ignoreCase, t, j, i + 1);
    } else if j + 1 < |p| {
      AttemptAdvances(p, ignoreCase, t, j + 1, if hit then i + 1 else i);
    }
  }

  /** The possessive cursor is monotone in the start: once an attempt has run off the end of the text, so does, or
      fails, every attempt from a later position. */
  lemma {:induction false} RanOffRulesOutLater(p: Pattern, ignoreCase: bool, t: seq<byte>, j: nat, i: nat, later: nat)
    requires j <= |p| && i <= later && Attempt(p, ignoreCase, t, j, i).RanOff?
    ensures !Attempt(p, ignoreCase, t, j, later).Matched?
    decreases |p| - j, 2 * |t| - i - later
  {
    if i < later < |t| {
      var hit, hitLater := AtomMatches(p[j].atom, ignoreCase, t[i]), AtomMatches(p[j].atom, ignoreCase, t[later]);
      match p[j].quantifier
      case One =>
        if hitLater {
          RanOffRulesOutLater(p, ignoreCase, t, j + 1, i + 1, later + 1);
        }
      case Optional =>
        RanOffRulesOutLater(p, ignoreCase, t, j + 1, if hit then i + 1 else i, if hitLater then later + 1 else later);
      case Many =>
        if hit {
          RanOffRulesOutLater(p, ignoreCase, t, j, i + 1, later);
        } else if hitLater {
          RanOffRulesOutLater(p, ignoreCase, t, j, i, later + 1);
        } else {
          RanOffRulesOutLater(p, ignoreCase, t, j + 1, i, later);
        }
    }
  }

  // ---------- All the matches ----------

  datatype Match = Match(start: nat, length: nat)

  /** The leftmost, non-overlapping matches from position s on. */
  function AllMatches(p: Pattern, ignoreCase: bool, t: seq<byte>, s: nat): seq<Match>
    requires p != [] && p[|p| - 1].quantifier.One?
    decreases |t| - s
  {
    if s >= |t| then []
    else
      match Attempt(p, ignoreCase, t, 0, s)
      case Matched(e) =>
        AttemptAdvances(p, ignoreCase, t, 0, s);
        [Match(s, e - s)] + AllMatches(p, ignoreCase, t, e)
      case _ => AllMatches(p, ignoreCase, t, s + 1)
  }

  lemma {:induction false} NoMatchesAfterRunOff(p: Pattern, ignoreCase: bool, t: seq<byte>, s: nat, later: nat)
    requires p != [] && p[|p| - 1].quantifier.One? && s <= later
    requires Attempt(p, ignoreCase, t, 0, s).RanOff?
    ensures AllMatches(p, ignoreCase, t, later) == []
    decreases |t| - later
  {
    RanOffRulesOutLater(p, ignoreCase, t, 0, s, later);
    if later < |t| {
      NoMatchesAfterRunOff(p, ignoreCase, t, s, later + 1);
    }
  }

  ghost predicate NoMatchIn(p: Pattern, ignoreCase: bool, t: seq<byte>, from: nat, to: nat) {
    forall s: nat, e: nat :: from <= s < to ==> !Matches(p, ignoreCase, t, s, e)
  }

  /** Each match in the list is the leftmost one after the previous match, and none follows the last. */
  ghost predicate Leftmost(p: Pattern, ignoreCase: bool, t: seq<byte>, from: nat, ms: seq<Match>)
    decreases |ms|
  {
    if ms == [] then NoMatchIn(p, ignoreCase, t, from, |t| + 1)
    else
      var end := ms[0].start + ms[0].length;
      && from <= ms[0].start && NoMatchIn(p, ignoreCase, t, from, ms[0].start)
      && Matches(p, ignoreCase, t, ms[0].start, end)
      && Leftmost(p, ignoreCase, t, end, ms[1..])
  }

  lemma NoMatchHere(p: Pattern, ignoreCase: bool, t: seq<byte>, s: nat)
    requires p != [] && p[|p| - 1].quantifier.One? && s <= |t|
    requires !Attempt(p, ignoreCase, t, 0, s).Matched?
    ensures NoMatchIn(p, ignoreCase, t, s, s + 1)
  {
    forall e: nat
      ensures !Matches(p, ignoreCase, t, s, e)
    {
      AttemptExact(p, ignoreCase, t, s, e);
    }
  }

  lemma LeftmostSkip(p: Pattern, ignoreCase: bool, t: seq<byte>, s: nat, ms: seq<Match>)
    requires NoMatchIn(p, ignoreCase, t, s, s + 1) && Leftmost(p, ignoreCase, t, s + 1, ms)
    ensures Leftmost(p, ignoreCase, t, s, ms)
  {
  }

  lemma {:induction false} AllMatchesLeftmost(p: Pattern, ignoreCase: bool, t: seq<byte>, s: nat)
    requires p != [] && p[|p| - 1].quantifier.One? && s <= |t|
    ensures Leftmost(p, ignoreCase, t, s, AllMatches(p, ignoreCase, t, s))
    decreases |t| - s
  {
    if s == |t| {
      NoMatchHere(p, ignoreCase, t, s);
    } else if Attempt(p, ignoreCase, t, 0, s).Matched? {
      var e := Attempt(p, ignoreCase, t, 0, s).end;
      AttemptAdvances(p, ignoreCase, t, 0, s);
      AttemptExact(p, ignoreCase, t, s, e);
      AllMatchesLeftmost(p, ignoreCase, t, e);
      var rest := AllMatches(p, ignoreCase, t, e);
      assert ([Match(s, e - s)] + rest)[1..] == rest;
    } else {
      NoMatchHere(p, ignoreCase, t, s);
      AllMatchesLeftmost(p, ignoreCase, t, s + 1);
      LeftmostSkip(p, ignoreCase, t, s, AllMatches(p, ignoreCase, t, s + 1));
    }
  }

  /** There is only one such list. */
  lemma {:induction false} LeftmostUnique(p: Pattern, ignoreCase: bool, t: seq<byte>, from: nat, a: seq<Match>, b: seq<Match>)
    requires p != [] && p[|p| - 1].quantifier.One?
    requires Leftmost(p, ignoreCase, t, from, a) && Leftmost(p, ignoreCase, t, from, b)
    ensures a == b
    decreases |a|
  {
    if a != [] { MatchInText(p, ignoreCase, t, a[0]); }
    if b != [] { MatchInText(p, ignoreCase, t, b[0]); }
    if a == [] || b == [] {
    } else {
      AttemptExact(p, ignoreCase, t, a[0].start, a[0].start + a[0].length);
      AttemptExact(p, ignoreCase, t, b[0].start, b[0].start + b[0].length);
      assert a[0].start == b[0].start;
      LeftmostUnique(p, ignoreCase, t, a[0].start + a[0].length, a[1..], b[1..]);
      assert a == [a[0]] + a[1..] && b == [b[0]] + b[1..];
    }
  }

  lemma MatchInText(p: Pattern, ignoreCase: bool, t: seq<byte>, m: Match)
    requires p != [] && p[|p| - 1].quantifier.One? && Matches(p, ignoreCase, t, m.start, m.start + m.length)
    ensures m.start < |t|
  {
    var cuts :| IsSplit(p, ignoreCase, t, 0, cuts) && cuts[0] == m.start;
    NothingAtEnd(p, ignoreCase, t, 0, cuts);
  }
}
