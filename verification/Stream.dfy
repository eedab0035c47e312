/**
 Searching a stream for several targets at once, and reading integers from it. The automaton keeps one index per target
 and no failure table: on a mismatch it recomputes the fallback by comparing the target with itself.
 */
module Streams {
  import opened Bits
  import opened Decimal

  // ---------- What a search must find ----------

  predicate EndsWith(s: seq<byte>, t: seq<byte>) {
    |t| <= |s| && s[|s| - |t|..] == t
  }

  /** Target r is the lowest-numbered one ending after p bytes, and none ends earlier. */
  ghost predicate IsFirstHit(targets: seq<seq<byte>>, data: seq<byte>, p: nat, r: nat) {
    && p <= |data| && r < |targets| && EndsWith(data[..p], targets[r])
    && (forall j :: 0 <= j < r ==> !EndsWith(data[..p], targets[j]))
    && NoHitBefore(targets, data, p)
  }

  ghost predicate NoHitBefore(targets: seq<seq<byte>>, data: seq<byte>, p: nat)
    requires p <= |data| + 1
  {
    forall q, j :: 0 <= q < p && 0 <= j < |targets| ==> !EndsWith(data[..q], targets[j])
  }

  lemma FirstHitUnique(targets: seq<seq<byte>>, data: seq<byte>, p: nat, r: nat, q: nat, k: nat)
    requires IsFirstHit(targets, data, p, r) && IsFirstHit(targets, data, q, k)
    ensures p == q && r == k
  {
  }

  // ---------- The automaton ----------

  datatype MultiTarget = MultiTarget(str: seq<byte>, index: nat)

  /** k is the length of the longest proper prefix of t that is a suffix of s. */
  ghost predicate IsLongest(t: seq<byte>, s: seq<byte>, k: nat) {
    && k < |t| && EndsWith(s, t[..k])
    && forall j :: k < j < |t| ==> !EndsWith(s, t[..j])
  }

  lemma EndsWithSnoc(s: seq<byte>, c: byte, t: seq<byte>)
    requires t != []
    ensures EndsWith(s + [c], t) <==> t[|t| - 1] == c && EndsWith(s, t[..|t| - 1])
  {
    var u := t[..|t| - 1];
    assert t == u + [t[|t| - 1]];
    if |t| <= |s| + 1 {
      assert (s + [c])[|s| + 1 - |t|..] == s[|s| - |u|..] + [c];
      if EndsWith(s + [c], t) {
        assert (s[|s| - |u|..] + [c])[..|u|] == s[|s| - |u|..];
      }
    }
  }

  /** A shorter prefix of t ends s exactly when it ends the longest one. */
  lemma Border(t: seq<byte>, s: seq<byte>, k: nat, j: nat)
    requires j <= k <= |t| && EndsWith(s, t[..k])
    ensures EndsWith(s, t[..j]) <==> t[..j] == t[k - j..k]
  {
    assert s[|s| - j..] == s[|s| - k..][k - j..];
    assert t[..k][k - j..] == t[k - j..k];
  }

  /** Position i is where the target can continue after c, given that index bytes of it were matched before. */
  ghost predicate Continues(t: seq<byte>, index: nat, c: byte, i: nat)
    requires i <= index < |t|
  {
    c == t[i] && t[..i] == t[index - i..index]
  }

  lemma ContinuesMeaning(t: seq<byte>, s: seq<byte>, index: nat, c: byte, i: nat)
    requires IsLongest(t, s, index) && i <= index
    ensures Continues(t, index, c, i) <==> EndsWith(s + [c], t[..i + 1])
  {
    EndsWithSnoc(s, c, t[..i + 1]);
    assert t[..i + 1][..i] == t[..i];
    Border(t, s, index, i);
  }

  lemma NoLonger(t: seq<byte>, s: seq<byte>, index: nat, c: byte, j: nat)
    requires IsLongest(t, s, index) && 0 < j <= |t|
    requires j - 1 <= index ==> !Continues(t, index, c, j - 1)
    ensures !EndsWith(s + [c], t[..j])
  {
    hide Continues, EndsWith;
    EndsWithSnoc(s, c, t[..j]);
    assert t[..j][..j - 1] == t[..j - 1];
    if j - 1 <= index {
      ContinuesMeaning(t, s, index, c, j - 1);
    }
  }

  /** What the next index is: one more than the highest position that continues, or 0. */
  lemma NextLongest(t: seq<byte>, s: seq<byte>, index: nat, c: byte, next: nat)
    requires IsLongest(t, s, index) && next <= index + 1 && next < |t|
    requires next > 0 ==> Continues(t, index, c, next - 1)
    requires forall i :: next <= i <= index ==> !Continues(t, index, c, i)
    ensures IsLongest(t, s + [c], next)
    ensures !EndsWith(s + [c], t)
  {
    assert EndsWith(s + [c], t[..0]) by { assert t[..0] == [] && (s + [c])[|s + [c]|..] == []; }
    hide Continues, EndsWith;
    if next > 0 {
      ContinuesMeaning(t, s, index, c, next - 1);
    }
    forall j | next < j <= |t|
      ensures !EndsWith(s + [c], t[..j])
    {
      NoLonger(t, s, index, c, j);
    }
    assert t[..|t|] == t;
  }

  lemma Completes(t: seq<byte>, s: seq<byte>, index: nat, c: byte)
    requires IsLongest(t, s, index) && index + 1 == |t| && c == t[index]
    ensures EndsWith(s + [c], t)
  {
    EndsWithSnoc(s, c, t);
  }

  // ---------- The algorithm ----------

  /** Whether the first `index` bytes of the target equal those that end `diff` bytes further on. */
  method SelfMatches(str: seq<byte>, index: nat, diff: nat) returns (same: bool)
    requires index + diff <= |str|
    ensures same == (str[..index] == str[diff..index + diff])
  {
    var i := 0;
    while i < index
      invariant i <= index
      invariant str[..i] == str[diff..i + diff]
    {
      if str[i] != str[i + diff] {
        break;
      }
      i := i + 1;
    }
    same := i == index;
    assert !same ==> str[..index][i] != str[diff..index + diff][i];
  }

  /** The fallback: the index to continue from when c does not continue the target at t.index. */
  method Fallback(t: MultiTarget, c: byte) returns (index: nat)
    requires 0 < t.index < |t.str| && c != t.str[t.index]
    ensures index <= t.index
    ensures index > 0 ==> Continues(t.str, t.index, c, index - 1)
    ensures forall i :: index <= i <= t.index ==> !Continues(t.str, t.index, c, i)
  {
    var origIndex := t.index;
    index := t.index;
    while index > 0
      invariant index <= origIndex
      invariant forall i :: index <= i <= origIndex ==> !Continues(t.str, origIndex, c, i)
      decreases index
    {
      index := index - 1;
      if c == t.str[index] {
        if index == 0 {
          index := index + 1;
          break;
        }
        var diff := origIndex - index;
        var same := SelfMatches(t.str, index, diff);
        if same {
          index := index + 1;
          break;
        }
      }
    }
  }

  /** One byte enters one target: either it completes the target, or the index is again the longest match. */
  method Feed(t: MultiTarget, c: byte, ghost s: seq<byte>) returns (next: MultiTarget, complete: bool)
    requires IsLongest(t.str, s, t.index)
    ensures next.str == t.str
    ensures complete == EndsWith(s + [c], t.str)
    ensures !complete ==> IsLongest(t.str, s + [c], next.index)
  {
    complete := false;
    if c == t.str[t.index] {
      next := t.(index := t.index + 1);
      if next.index == |t.str| {
        Completes(t.str, s, t.index, c);
        return next, true;
      }
      NextLongest(t.str, s, t.index, c, next.index);
    } else if t.index == 0 {
      NextLongest(t.str, s, 0, c, 0);
      next := t;
    } else {
      var index := Fallback(t, c);
      NextLongest(t.str, s, t.index, c, index);
      next := t.(index := index);
    }
  }

  function Strings(targets: seq<MultiTarget>): (strs: seq<seq<byte>>)
    ensures |strs| == |targets|
  {
    seq(|targets|, i requires 0 <= i < |targets| => targets[i].str)
  }

  /** Every index is the longest match for the bytes s. */
  ghost predicate AllLongest(targets: seq<MultiTarget>, s: seq<byte>) {
    forall j :: 0 <= j < |targets| ==> IsLongest(targets[j].str, s, targets[j].index)
  }

  ghost predicate NoneEnds(strs: seq<seq<byte>>, s: seq<byte>, n: nat)
    requires n <= |strs|
  {
    forall j :: 0 <= j < n ==> !EndsWith(s, strs[j])
  }

  lemma EmptyEndsFirst(strs: seq<seq<byte>>, data: seq<byte>, t: nat)
    requires t < |strs| && strs[t] == [] && forall j :: 0 <= j < t ==> |strs[j]| > 0
    ensures IsFirstHit(strs, data, 0, t)
  {
  }

  lemma NothingEndsEmpty(targets: seq<MultiTarget>, data: seq<byte>)
    requires forall j :: 0 <= j < |targets| ==> |targets[j].str| > 0 && targets[j].index == 0
    ensures AllLongest(targets, data[..0]) && NoHitBefore(Strings(targets), data, 1)
  {
  }

  lemma NoHitGrows(strs: seq<seq<byte>>, data: seq<byte>, n: nat)
    requires n <= |data| && NoHitBefore(strs, data, n) && NoneEnds(strs, data[..n], |strs|)
    ensures NoHitBefore(strs, data, n + 1)
  {
  }

  // ---------- Reading integers ----------

  datatype LookaheadMode = SkipAll | SkipNone | SkipWhitespace

  /** An integer may begin here. */
  predicate Begins(c: byte, detectDecimal: bool) {
    c == MINUS || IsDigit(c) || (detectDecimal && c == 0x2E)
  }

  predicate Skippable(mode: LookaheadMode, c: byte) {
    mode == SkipAll || (mode == SkipWhitespace && (c == 0x20 || c == 0x09 || c == 0x0D || c == 0x0A))
  }

  /** How many bytes are passed over before an integer or a byte that may not be skipped. */
  function Skipped(s: seq<byte>, mode: LookaheadMode, detectDecimal: bool): (k: nat)
    ensures k <= |s|
    ensures forall i :: 0 <= i < k ==> !Begins(s[i], detectDecimal) && Skippable(mode, s[i])
    ensures k < |s| ==> Begins(s[k], detectDecimal) || !Skippable(mode, s[k])
  {
    if s == [] || Begins(s[0], detectDecimal) || !Skippable(mode, s[0]) then 0
    else 1 + Skipped(s[1..], mode, detectDecimal)
  }

  predicate GoesOn(c: byte, ignore: byte) {
    IsDigit(c) || c == ignore
  }

  /** Where digits and ignored bytes end, from k on. */
  function RunEnd(s: seq<byte>, k: nat, ignore: byte): (q: nat)
    requires k <= |s|
    ensures k <= q <= |s|
    ensures forall i :: k <= i < q ==> GoesOn(s[i], ignore)
    ensures q < |s| ==> !GoesOn(s[q], ignore)
    decreases |s| - k
  {
    if k == |s| || !GoesOn(s[k], ignore) then k else RunEnd(s, k + 1, ignore)
  }

  lemma SkippedStep(s: seq<byte>, k: nat, mode: LookaheadMode, detectDecimal: bool)
    requires k <= |s|
    ensures Skipped(s[k..], mode, detectDecimal)
         == if k == |s| || Begins(s[k], detectDecimal) || !Skippable(mode, s[k]) then 0
            else 1 + Skipped(s[k + 1..], mode, detectDecimal)
  {
    assert k < |s| ==> s[k..][1..] == s[k + 1..];
  }

  lemma KeptStep(s: seq<byte>, p: nat, k: nat, ignore: byte)
    requires p <= k < |s|
    ensures Value(Kept(s[p..k + 1], ignore))
         == if IsDigit(s[k]) && s[k] != ignore then 10 * Value(Kept(s[p..k], ignore)) + (s[k] - ZERO) as nat
            else Value(Kept(s[p..k], ignore))
  {
    var run := s[p..k + 1];
    assert run[..|run| - 1] == s[p..k] && run[|run| - 1] == s[k];
    if IsDigit(s[k]) && s[k] != ignore {
      ValueStep(Kept(s[p..k], ignore), s[k]);
    } else {
      assert Kept(s[p..k], ignore) + [] == Kept(s[p..k], ignore);
    }
  }

  lemma ValueStep(ds: seq<byte>, c: byte)
    requires AllDigits(ds) && IsDigit(c)
    ensures AllDigits(ds + [c]) && Value(ds + [c]) == 10 * Value(ds) + (c - ZERO) as nat
  {
    assert (ds + [c])[..|ds + [c]| - 1] == ds;
  }

  /** What is read from s: the value, and how many bytes are consumed. */
  function Parsed(s: seq<byte>, mode: LookaheadMode, ignore: byte): (int, nat) {
    var p := Skipped(s, mode, false);
    if p == |s| || !Begins(s[p], false) then (0, p)
    else
      var q := RunEnd(s, p + 1, ignore);
      var v: int := Value(Kept(s[p..q], ignore));
      (if s[p] == MINUS && ignore != MINUS then -v else v, q)
  }

  /** A byte that is passed over in front of a number: any that is no part of one, only white space, or none. */
  predicate PassedOver(mode: LookaheadMode, c: byte) {
    && c != 0x2D && !(0x30 <= c <= 0x39) && mode != SkipNone
    && (mode == SkipWhitespace ==> c == 0x20 || c == 0x09 || c == 0x0D || c == 0x0A)
  }

  /** Where the input ends, or a byte comes that is neither passed over nor part of a number, 0 is returned and that byte
      is still to come. */
  lemma NothingParsed(s: seq<byte>, p: nat, mode: LookaheadMode, ignore: byte)
    requires p <= |s| && forall i :: 0 <= i < p ==> PassedOver(mode, s[i])
    requires p < |s| ==> s[p] != 0x2D && !(0x30 <= s[p] <= 0x39) && !PassedOver(mode, s[p])
    ensures Parsed(s, mode, ignore) == (0, p)
  {
    SkippedTo(s, p, mode);
  }

  lemma SkippedTo(s: seq<byte>, p: nat, mode: LookaheadMode)
    requires p <= |s| && forall i :: 0 <= i < p ==> PassedOver(mode, s[i])
    requires p < |s| ==> !PassedOver(mode, s[p])
    ensures Skipped(s, mode, false) == p
  {
    assert forall c: byte :: PassedOver(mode, c) <==> !Begins(c, false) && Skippable(mode, c);
  }

  /** The bytes from p to k have been taken into the value and the sign. */
  ghost predicate Reading(s: seq<byte>, p: nat, k: nat, ignore: byte, value: int, isNegative: bool) {
    && p <= k <= |s| && (forall i :: p < i < k ==> GoesOn(s[i], ignore))
    && value == Value(Kept(s[p..k], ignore))
    && isNegative == (p < k && s[p] == MINUS && ignore != MINUS)
  }

  lemma ReadingStarts(s: seq<byte>, p: nat, ignore: byte)
    requires p <= |s|
    ensures Reading(s, p, p, ignore, 0, false)
  {
  }

  lemma ReadingStep(s: seq<byte>, p: nat, k: nat, ignore: byte, value: int, isNegative: bool, newValue: int,
                    nowNegative: bool)
    requires Reading(s, p, k, ignore, value, isNegative) && k < |s| && (p == k || GoesOn(s[k], ignore))
    requires newValue == if IsDigit(s[k]) && s[k] != ignore then 10 * value + (s[k] - ZERO) else value
    requires nowNegative == (isNegative || (s[k] == MINUS && ignore != MINUS))
    ensures Reading(s, p, k + 1, ignore, newValue, nowNegative)
  {
    hide Kept, Value;
    KeptStep(s, p, k, ignore);
  }

  lemma ReadingEnds(s: seq<byte>, p: nat, k: nat, mode: LookaheadMode, ignore: byte, value: int, isNegative: bool)
    requires Reading(s, p, k, ignore, value, isNegative) && p < k && (k < |s| ==> !GoesOn(s[k], ignore))
    requires p == Skipped(s, mode, false) && Begins(s[p], false)
    ensures Parsed(s, mode, ignore) == (if isNegative then -value else value, k)
  {
    assert RunEnd(s, p + 1, ignore) == k;
  }

  /** A stream: the bytes still to come are input[pos..]; the end of the input stands for a timeout. */
  class Stream {
    const input: seq<byte>
    var pos: nat

    constructor (input: seq<byte>)
      ensures this.input == input && pos == 0
    {
      this.input, pos := input, 0;
    }

    method TimedRead() returns (c: int)
      requires pos <= |input|
      modifies this
      ensures old(pos) == |input| ==> c == -1 && pos == old(pos)
      ensures old(pos) < |input| ==> c == input[old(pos)] && pos == old(pos) + 1
    {
      if pos < |input| {
        c := input[pos];
        pos := pos + 1;
      } else {
        c := -1;
      }
    }

    /** One byte enters every target in turn, until one completes. */
    method FeedAll(targets: array<MultiTarget>, c: byte, ghost s: seq<byte>) returns (hit: int)
      requires AllLongest(targets[..], s)
      modifies targets
      ensures Strings(targets[..]) == old(Strings(targets[..])) && -1 <= hit < targets.Length
      ensures hit < 0 ==> AllLongest(targets[..], s + [c]) && NoneEnds(old(Strings(targets[..])), s + [c], targets.Length)
      ensures hit >= 0 ==> EndsWith(s + [c], old(targets[hit].str)) && NoneEnds(old(Strings(targets[..])), s + [c], hit)
    {
      ghost var strs := Strings(targets[..]);
      for t := 0 to targets.Length
        invariant Strings(targets[..]) == strs && NoneEnds(strs, s + [c], t)
        invariant forall j :: 0 <= j < t ==> IsLongest(targets[j].str, s + [c], targets[j].index)
        invariant forall j :: t <= j < targets.Length ==> targets[j] == old(targets[j])
      {
        assert IsLongest(targets[..][t].str, s, targets[..][t].index) by {
          assert old(targets[..])[t] == targets[t];
        }
        var next, complete := Feed(targets[t], c, s);
        assert strs[t] == targets[t].str;
        targets[t] := next;
        assert Strings(targets[..]) == strs;
        if complete {
          return t;
        }
      }
      hit := -1;
    }

    /** Finds the earliest position where any target ends and the lowest-numbered target ending there, reading exactly
        up to it; -1 exactly when no target ends anywhere before the input does. */
    method FindMulti(targets: array<MultiTarget>) returns (r: int)
      requires pos <= |input| && forall j :: 0 <= j < targets.Length ==> targets[j].index == 0
      modifies this, targets
      ensures old(pos) <= pos <= |input| && Strings(targets[..]) == old(Strings(targets[..]))
      ensures r >= 0 ==> IsFirstHit(old(Strings(targets[..])), input[old(pos)..], pos - old(pos), r)
      ensures r < 0 ==> r == -1 && pos == |input|
      ensures r < 0 ==> NoHitBefore(old(Strings(targets[..])), input[old(pos)..], |input| - old(pos) + 1)
      ensures r < 0 ==> AllLongest(targets[..], input[old(pos)..])
    {
      ghost var strs, data := Strings(targets[..]), input[pos..];
      for t := 0 to targets.Length
        invariant forall j :: 0 <= j < t ==> |targets[j].str| > 0
      {
        if |targets[t].str| <= 0 {
          EmptyEndsFirst(strs, data, t);
          return t;
        }
      }
      ghost var n := 0;
      NothingEndsEmpty(targets[..], data);
      while true
        invariant n <= |data| && pos == old(pos) + n && Strings(targets[..]) == strs
        invariant AllLongest(targets[..], data[..n]) && NoHitBefore(strs, data, n + 1)
        decreases |data| - n
      {
        var c := TimedRead();
        if c < 0 {
          assert data[..n] == data;
          return -1;
        }
        assert data[..n + 1] == data[..n] + [data[n]];
        r := FeedAll(targets, c, data[..n]);
        n := n + 1;
        if r >= 0 {
          return;
        }
        NoHitGrows(strs, data, n);
      }
    }

    /** `findUntil`: true exactly when the target ends at a position before which the terminator does not end. */
    method FindUntil(target: seq<byte>, terminator: seq<byte>) returns (found: bool)
      requires pos <= |input|
      modifies this
      ensures found <==> exists p :: 0 <= p <= |input| - old(pos) && EndsWith(input[old(pos)..][..p], target) &&
                           forall q :: 0 <= q < p ==> !EndsWith(input[old(pos)..][..q], terminator)
      ensures old(pos) <= pos <= |input| && NoHitBefore([target, terminator], input[old(pos)..], pos - old(pos))
      ensures pos == |input| || EndsWith(input[old(pos)..pos], if found then target else terminator)
    {
      hide AllLongest, EndsWith;
      ghost var data := input[pos..];
      var t := new MultiTarget[2](i => MultiTarget(if i == 0 then target else terminator, 0));
      assert Strings(t[..]) == [target, terminator];
      var r := FindMulti(t);
      assert Strings(t[..])[0] == t[0].str && Strings(t[..])[1] == t[1].str;
      found := r == 0;
      assert data[..pos - old(pos)] == input[old(pos)..pos];
    }

    /** `find`: without a terminator, true exactly when the target ends somewhere in the stream. */
    method Find(target: seq<byte>) returns (found: bool)
      requires pos <= |input|
      modifies this
      ensures found <==> exists p :: 0 <= p <= |input| - old(pos) && EndsWith(input[old(pos)..][..p], target)
      ensures old(pos) <= pos <= |input| && NoHitBefore([target], input[old(pos)..], pos - old(pos))
      ensures if found then EndsWith(input[old(pos)..pos], target) else pos == |input|
    {
      hide AllLongest, EndsWith;
      ghost var data := input[pos..];
      var t := new MultiTarget[1](i => MultiTarget(target, 0));
      assert Strings(t[..]) == [target];
      var r := FindMulti(t);
      assert Strings(t[..])[0] == t[0].str;
      found := r == 0;
      assert data[..pos - old(pos)] == input[old(pos)..pos];
    }

    method TimedPeek() returns (c: int)
      requires pos <= |input|
      ensures c == if pos < |input| then input[pos] as int else -1
    {
      c := if pos < |input| then input[pos] as int else -1;
    }

    /** Discards bytes up to the next one an integer may begin with; that byte, or -1. */
    method PeekNextDigit(lookahead: LookaheadMode, detectDecimal: bool) returns (c: int)
      requires pos <= |input|
      modifies this
      ensures pos == old(pos) + Skipped(input[old(pos)..], lookahead, detectDecimal) <= |input|
      ensures c == if pos < |input| && Begins(input[pos], detectDecimal) then input[pos] as int else -1
    {
      hide Skipped;
      ghost var s, k := input[pos..], 0;
      assert s[0..] == s;
      while true
        invariant pos == old(pos) + k <= |input|
        invariant Skipped(s, lookahead, detectDecimal) == k + Skipped(s[k..], lookahead, detectDecimal)
        decreases |input| - pos
      {
        SkippedStep(s, k, lookahead, detectDecimal);
        c := TimedPeek();
        if c < 0 || c == MINUS || IsDigit(c) || (detectDecimal && c == 0x2E) {
          return;
        }
        match lookahead {
          case SkipNone =>
            return -1;
          case SkipWhitespace =>
            if c != 0x20 && c != 0x09 && c != 0x0D && c != 0x0A {
              return -1;
            }
          case SkipAll =>
        }
        var _ := TimedRead();
        k := k + 1;
      }
    }

    /** What one byte of an integer does to its value and sign. */
    static method TakeIn(c: int, ignore: byte, value: int, isNegative: bool) returns (newValue: int, nowNegative: bool)
      ensures newValue == if IsDigit(c) && c != ignore then 10 * value + (c - 0x30) else value
      ensures nowNegative == (isNegative || (c == MINUS && ignore != MINUS))
    {
      newValue, nowNegative := value, isNegative;
      if c == ignore {
      } else if c == MINUS {
        nowNegative := true;
      } else if IsDigit(c) {
        newValue := value * 10 + c - 0x30;
      }
    }

    /** The next integer in the stream; 0 if there is none before the stream times out. */
    method ParseInt(lookahead: LookaheadMode, ignore: byte) returns (value: int)
      requires pos <= |input|
      modifies this
      ensures (value, pos - old(pos)) == Parsed(input[old(pos)..], lookahead, ignore)
    {
      hide Skipped, RunEnd, Reading, Kept, Value;
      var isNegative := false;
      value := 0;
      ghost var s := input[pos..];
      var c := PeekNextDigit(lookahead, false);
      ghost var p := pos - old(pos);
      if c < 0 {
        return 0;
      }
      ghost var k := p;
      ReadingStarts(s, p, ignore);
      while true
        invariant k < |s| && pos == old(pos) + k && c == s[k] && (p == k || GoesOn(c, ignore))
        invariant Reading(s, p, k, ignore, value, isNegative)
        decreases |input| - pos
      {
        var newValue, nowNegative := TakeIn(c, ignore, value, isNegative);
        ReadingStep(s, p, k, ignore, value, isNegative, newValue, nowNegative);
        value, isNegative := newValue, nowNegative;
        var _ := TimedRead();
        k := k + 1;
        c := TimedPeek();
        if c < 0 || !GoesOn(c, ignore) {
          break;
        }
      }
      assert p < k;
      ReadingEnds(s, p, k, lookahead, ignore, value, isNegative);
      if isNegative {
        value := -value;
      }
    }
  }

  // ---------- Reading back what was printed ----------

  predicate Fits(n: int, fixedWidth: int) {
    fixedWidth == AUTO || (fixedWidth > 0 && Magnitude(n) < Pow10(fixedWidth))
  }

  /** The sign and the digits of a printed number, without the zeros in front. */
  function Significant(n: int, fixedWidth: int): seq<byte>
    requires Fits(n, fixedWidth)
  {
    (if n < 0 then [MINUS] else []) + Stripped(Text(Magnitude(n), Width(Magnitude(n), fixedWidth)))
  }

  lemma NumeralOf(n: int, fixedWidth: int) returns (text: seq<byte>)
    requires Fits(n, fixedWidth)
    ensures text != [] && AllDigits(text) && Value(text) == Magnitude(n)
    ensures Printed(n, fixedWidth) == (if n < 0 then [MINUS] else []) + text
    ensures Significant(n, fixedWidth) == (if n < 0 then [MINUS] else []) + Stripped(text)
  {
    hide Text, Value;
    var width := Width(Magnitude(n), fixedWidth);
    DigitCountMeaning(Magnitude(n));
    TextFits(Magnitude(n), width);
    text := Text(Magnitude(n), width);
  }

  /** The bytes that are read: from the sign or first digit to the last digit or ignored byte. */
  lemma NumeralFound(before: seq<byte>, sign: seq<byte>, text: seq<byte>, after: seq<byte>, mode: LookaheadMode, ignore: byte)
    requires sign == [MINUS] || (sign == [] && text != [] && IsDigit(text[0]))
    requires (forall i :: 0 <= i < |text| ==> GoesOn(text[i], ignore)) && (after != [] ==> !GoesOn(after[0], ignore))
    requires forall i :: 0 <= i < |before| ==> PassedOver(mode, before[i])
    ensures var s, t := before + (sign + text) + after, sign + text;
            && Skipped(s, mode, false) == |before| && RunEnd(s, |before| + 1, ignore) == |before| + |t|
            && s[|before|..|before| + |t|] == t && s[|before|] == t[0] && Begins(t[0], false)
  {
    var s, t := before + (sign + text) + after, sign + text;
    TextInside(before, t, after);
    hide RunEnd, Skipped;
    assert forall i :: 0 < i < |t| ==> t[i] == text[i - |sign|];
    SkippedTo(s, |before|, mode);
    RunEndsAt(s, |before| + 1, |before| + |t|, ignore);
  }

  lemma TextInside(before: seq<byte>, t: seq<byte>, after: seq<byte>)
    ensures var s := before + t + after;
            && (forall i :: 0 <= i < |before| ==> s[i] == before[i])
            && (forall i :: |before| <= i < |before| + |t| ==> s[i] == t[i - |before|])
            && s[|before|..|before| + |t|] == t && (after != [] ==> s[|before| + |t|] == after[0])
  {
  }

  lemma RunEndsAt(s: seq<byte>, k: nat, q: nat, ignore: byte)
    requires k <= q <= |s| && (forall i :: k <= i < q ==> GoesOn(s[i], ignore)) && (q < |s| ==> !GoesOn(s[q], ignore))
    ensures RunEnd(s, k, ignore) == q
  {
  }

  lemma SignIsNotKept(sign: seq<byte>, text: seq<byte>, ignore: byte)
    requires sign == [] || sign == [MINUS]
    ensures Kept(sign + text, ignore) == Kept(text, ignore)
  {
    KeptConcat(sign, text, ignore);
    assert [MINUS][..0] == [];
    assert Kept(sign, ignore) == [];
  }

  /** A printed number is read back, behind whatever is passed over and whatever comes after it, exactly when the byte to
      ignore is not its sign or one of its digits other than a zero in front. In any case exactly its bytes are consumed. */
  lemma ReadBackExactlyWhen(n: int, fixedWidth: int, before: seq<byte>, after: seq<byte>, mode: LookaheadMode, ignore: byte)
    requires Fits(n, fixedWidth)
    requires (forall i :: 0 <= i < |before| ==> PassedOver(mode, before[i])) && (after != [] ==> !GoesOn(after[0], ignore))
    ensures var (value, consumed) := Parsed(before + Printed(n, fixedWidth) + after, mode, ignore);
            consumed == |before| + |Printed(n, fixedWidth)| && (value == n <==> ignore !in Significant(n, fixedWidth))
  {
    hide Text, Value, Kept, Stripped, Skipped, RunEnd, Printed, Significant;
    var sign := if n < 0 then [MINUS] else [];
    var text := NumeralOf(n, fixedWidth);
    NumeralFound(before, sign, text, after, mode, ignore);
    SignIsNotKept(sign, text, ignore);
    IgnoredExactlyWhen(text, ignore);
    if ignore in Stripped(text) { StrippedDigits(text, ignore); }
  }

  lemma {:induction false} StrippedDigits(s: seq<byte>, ignore: byte)
    requires AllDigits(s) && ignore in Stripped(s)
    ensures IsDigit(ignore)
    decreases |s|
  {
    if s[0] != ZERO {
    } else {
      StrippedDigits(s[1..], ignore);
    }
  }

  /** In particular with the default byte to ignore, or any other that is neither a digit nor a minus sign. */
  lemma ReadBack(n: int, fixedWidth: int, before: seq<byte>, after: seq<byte>, mode: LookaheadMode, ignore: byte)
    requires Fits(n, fixedWidth) && ignore != MINUS && !IsDigit(ignore)
    requires (forall i :: 0 <= i < |before| ==> PassedOver(mode, before[i])) && (after != [] ==> !GoesOn(after[0], ignore))
    ensures Parsed(before + Printed(n, fixedWidth) + after, mode, ignore)
         == (n, |before| + |Printed(n, fixedWidth)|)
  {
    hide Text, Value, Kept, Stripped, Skipped, RunEnd, Printed, Parsed;
    ReadBackExactlyWhen(n, fixedWidth, before, after, mode, ignore);
    var text := NumeralOf(n, fixedWidth);
    if ignore in Stripped(text) { StrippedDigits(text, ignore); }
  }

  // ---------- Numbers in groups ----------

  /** Groups of digits with the byte to ignore between them, and without it. */
  function Grouped(groups: seq<seq<byte>>, ignore: byte): seq<byte> {
    if groups == [] then []
    else if |groups| == 1 then groups[0]
    else groups[0] + ([ignore] + Grouped(groups[1..], ignore))
  }

  function Flat(groups: seq<seq<byte>>): seq<byte> {
    if groups == [] then [] else groups[0] + Flat(groups[1..])
  }

  ghost predicate DigitGroups(groups: seq<seq<byte>>) {
    forall i :: 0 <= i < |groups| ==> AllDigits(groups[i])
  }

  lemma {:induction false} FlatDigits(groups: seq<seq<byte>>)
    requires DigitGroups(groups)
    ensures AllDigits(Flat(groups))
    decreases |groups|
  {
    if groups == [] {
    } else {
      FlatDigits(groups[1..]);
    }
  }

  lemma KeptGroup(group: seq<byte>, ignore: byte, rest: seq<byte>)
    requires AllDigits(group) && !IsDigit(ignore)
    ensures Kept(group + ([ignore] + rest), ignore) == group + Kept(rest, ignore)
  {
    KeptConcat(group, [ignore] + rest, ignore);
    KeptConcat([ignore], rest, ignore);
    KeptAll(group, ignore);
    assert [ignore][..0] == [];
    assert Kept([ignore], ignore) == [];
    hide Kept;
    assert [] + Kept(rest, ignore) == Kept(rest, ignore);
  }

  lemma {:induction false} KeptGroups(groups: seq<seq<byte>>, ignore: byte)
    requires DigitGroups(groups) && !IsDigit(ignore)
    ensures Kept(Grouped(groups, ignore), ignore) == Flat(groups)
    ensures forall i :: 0 <= i < |Grouped(groups, ignore)| ==> GoesOn(Grouped(groups, ignore)[i], ignore)
    decreases |groups|
  {
    hide Kept;
    if groups == [] {
      KeptAll([], ignore);
    } else {
      KeptGroups(groups[1..], ignore);
      if |groups| == 1 {
        KeptAll(groups[0], ignore);
        assert Flat(groups[1..]) == [] && groups[0] + [] == groups[0];
      } else {
        KeptGroup(groups[0], ignore, Grouped(groups[1..], ignore));
      }
    }
  }

  /** A number whose digits stand in groups, the byte to ignore between them, is read as if they stood together; so is a
      number with a minus sign in front. */
  lemma GroupsReadBack(groups: seq<seq<byte>>, negative: bool, before: seq<byte>, after: seq<byte>, mode: LookaheadMode,
                       ignore: byte)
    requires DigitGroups(groups) && ignore != MINUS && !IsDigit(ignore)
    requires negative || (groups != [] && groups[0] != [])
    requires (forall i :: 0 <= i < |before| ==> PassedOver(mode, before[i])) && (after != [] ==> !GoesOn(after[0], ignore))
    ensures AllDigits(Flat(groups))
    ensures var text := (if negative then [0x2D] else []) + Grouped(groups, ignore);
            var v: int := Value(Flat(groups));
            Parsed(before + text + after, mode, ignore) == (if negative then -v else v, |before| + |text|)
  {
    hide Kept, Value, Skipped, RunEnd;
    var sign, text := if negative then [MINUS] else [], Grouped(groups, ignore);
    FlatDigits(groups);
    KeptGroups(groups, ignore);
    NumeralFound(before, sign, text, after, mode, ignore);
    SignIsNotKept(sign, text, ignore);
  }

  lemma OneDigit(m: nat, width: nat)
    requires m < 10 && width == 1
    ensures Text(m, width) == [ZERO + m]
  {
    hide Text;
    assert Pow10(0) == 1;
    TextStep(m, 0);
    NothingLeft(Remaining(m, 1));
  }

  lemma TopOfTwo(n: nat)
    requires 10 <= n < 100
    ensures TopDigit(n, Pow10(1)) == n / 10 && Remaining(n, Pow10(1)) == n % 10
  {
    assert Pow10(1) == 10;
  }

  lemma TwoDigits(n: nat, tens: nat, ones: nat, width: nat)
    requires 10 <= n < 100 && tens == n / 10 && ones == n % 10 && width == 2
    ensures Text(n, width) == [ZERO + tens, ZERO + ones]
  {
    hide Text, Pow10, TopDigit, Remaining;
    TopOfTwo(n);
    TextStep(n, 1);
    OneDigit(ones, 1);
  }

  lemma KeptTen()
    ensures Value(Kept([0x31, ZERO], ZERO)) == 1
  {
    SingleDigit(0x31);
    assert [0x31][..0] == [];
    assert Kept([0x31], ZERO) == [0x31];
    hide Value;
    assert [0x31, ZERO][..1] == [0x31];
  }

  /** For example 10 is read as 1 when the zero is ignored. */
  lemma ReadBackFails(n: nat)
    requires n == 10
    ensures ZERO in Significant(n, AUTO)
    ensures Parsed([] + Printed(n, AUTO) + [], SkipAll, ZERO) == (1, 2)
  {
    assert DigitCount(n) == 2 by { assert DigitCount(n / 10) == 1; }
    TwoDigits(n, 1, 0, DigitCount(n));
    KeptTen();
    NumeralFound([], [], [0x31, ZERO], [], SkipAll, ZERO);
    assert Stripped([0x31, ZERO]) == [0x31, ZERO];
    hide Text, Skipped, RunEnd, Kept, Value, Stripped, DigitCount;
    assert Printed(n, AUTO) == [] + Text(n, DigitCount(n));
  }
}
