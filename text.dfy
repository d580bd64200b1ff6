/**
 * The Kotlin string operations the decompiler is built from (`indexOf`,
 * `contains`, `split`, `replace`, `substring`, the decimal `toString` of an
 * Int and `toInt`), and the two fixed regular expressions it matches
 * statements against. Only non-empty separators and search strings occur in
 * the decompiler, so only those are modelled, apart from `SplitOnEmpty`.
 */
module Text {
  import opened Wrappers

  /** `sub` occurs in `s` starting at position `i`. */
  predicate OccursAt(s: string, sub: string, i: nat) {
    i + |sub| <= |s| && s[i..i + |sub|] == sub
  }

  /** `s.indexOf(sub, from)`: the first occurrence of `sub` at or after `from`. */
  function IndexFrom(s: string, sub: string, from: nat): (r: Option<nat>)
    ensures r.Some? ==> from <= r.value && OccursAt(s, sub, r.value)
    ensures forall j :: from <= j && (r.None? || j < r.value) ==> !OccursAt(s, sub, j)
    decreases |s| - from
  {
    if from + |sub| > |s| then None
    else if s[from..from + |sub|] == sub then Some(from)
    else IndexFrom(s, sub, from + 1)
  }

  function IndexOf(s: string, sub: string): Option<nat> {
    IndexFrom(s, sub, 0)
  }

  /** `s.contains(sub)`. */
  predicate Contains(s: string, sub: string) {
    IndexOf(s, sub).Some?
  }

  /** `contains` holds exactly when there is an occurrence somewhere. */
  lemma ContainsOccurrence(s: string, sub: string)
    ensures Contains(s, sub) <==> exists i: nat :: OccursAt(s, sub, i)
  {
  }

  lemma ContainsChar(s: string, c: char)
    ensures Contains(s, [c]) <==> c in s
  {
    ContainsOccurrence(s, [c]);
    if c in s {
      var i :| 0 <= i < |s| && s[i] == c;
      assert OccursAt(s, [c], i);
    }
    if Contains(s, [c]) {
      var i: nat :| OccursAt(s, [c], i);
      assert s[i..i + 1][0] == s[i];
    }
  }

  /** An occurrence inside a prefix of `s` is an occurrence in `s`. */
  lemma ContainsPrefix(s: string, sub: string, n: nat)
    requires n <= |s| && Contains(s[..n], sub)
    ensures Contains(s, sub)
  {
    ContainsOccurrence(s[..n], sub);
    ContainsOccurrence(s, sub);
    var i: nat :| OccursAt(s[..n], sub, i);
    assert s[..n][i..i + |sub|] == s[i..i + |sub|];
    assert OccursAt(s, sub, i);
  }

  /**
   * `s.split(sep)`: the pieces between successive non-overlapping
   * occurrences of `sep`, found from the left; empty pieces are kept.
   */
  function Split(s: string, sep: string): (pieces: seq<string>)
    requires sep != []
    ensures |pieces| >= 1
    ensures |pieces| == 1 <==> !Contains(s, sep)
    decreases |s|
  {
    match IndexOf(s, sep)
    case None => [s]
    case Some(i) => [s[..i]] + Split(s[i + |sep|..], sep)
  }

  /** `pieces.joinToString(sep)`. */
  function Join(pieces: seq<string>, sep: string): string
    requires |pieces| >= 1
  {
    if |pieces| == 1 then pieces[0] else pieces[0] + sep + Join(pieces[1..], sep)
  }

  /** An occurrence cuts the text into what comes before it, itself, and what comes after it. */
  lemma CutAt(s: string, sub: string, i: nat)
    requires OccursAt(s, sub, i)
    ensures s == s[..i] + sub + s[i + |sub|..]
  {
    assert s[..i + |sub|] == s[..i] + s[i..i + |sub|];
    assert s == s[..i + |sub|] + s[i + |sub|..];
  }

  /** One step of a split: the piece before the first occurrence, then the split of the rest. */
  lemma SplitStep(s: string, sep: string, i: nat)
    requires sep != [] && IndexOf(s, sep) == Some(i)
    ensures Split(s, sep) == [s[..i]] + Split(s[i + |sep|..], sep)
  {
  }

  /** Joining the pieces of a split with its separator gives back the text. */
  lemma {:induction false} SplitJoin(s: string, sep: string)
    requires sep != []
    ensures Join(Split(s, sep), sep) == s
    decreases |s|
  {
    match IndexOf(s, sep)
    case None =>
    case Some(i) =>
      var rest := s[i + |sep|..];
      SplitStep(s, sep, i);
      SplitJoin(rest, sep);
      JoinCons(s[..i], Split(rest, sep), sep);
      CutAt(s, sep, i);
  }

  /** No piece of a split contains the separator. */
  lemma {:induction false} SplitPiecesFree(s: string, sep: string)
    requires sep != []
    ensures forall k :: 0 <= k < |Split(s, sep)| ==> !Contains(Split(s, sep)[k], sep)
    decreases |s|
  {
    match IndexOf(s, sep)
    case None =>
    case Some(i) =>
      SplitStep(s, sep, i);
      SplitPiecesFree(s[i + |sep|..], sep);
      FirstPieceFree(s, sep, i);
  }

  lemma FirstPieceFree(s: string, sep: string, i: nat)
    requires sep != [] && i <= |s|
    requires forall j :: 0 <= j < i ==> !OccursAt(s, sep, j)
    ensures !Contains(s[..i], sep)
  {
    if Contains(s[..i], sep) {
      ContainsOccurrence(s[..i], sep);
      var j: nat :| OccursAt(s[..i], sep, j);
      assert s[..i][j..j + |sep|] == s[j..j + |sep|];
      assert OccursAt(s, sep, j);
    }
  }

  /** A text that contains `sub` contains its first character. */
  lemma ContainsFirstChar(s: string, sub: string)
    requires sub != [] && Contains(s, sub)
    ensures sub[0] in s
  {
    ContainsOccurrence(s, sub);
    var i: nat :| OccursAt(s, sub, i);
    assert s[i..i + |sub|][0] == s[i];
  }

  /** Every character of a text that occurs in `s` is a character of `s`. */
  lemma ContainsCharOf(s: string, sub: string, j: nat)
    requires j < |sub| && Contains(s, sub)
    ensures sub[j] in s
  {
    ContainsOccurrence(s, sub);
    var i: nat :| OccursAt(s, sub, i);
    assert s[i..i + |sub|][j] == s[i + j];
  }

  /**
   * Splitting `head + sep + tail` when neither side contains the separator,
   * for a separator whose first character does not recur in it (so that two
   * occurrences cannot overlap).
   */
  lemma SplitAround(head: string, sep: string, tail: string)
    requires sep != [] && sep[0] !in sep[1..]
    requires !Contains(head, sep) && !Contains(tail, sep)
    ensures Split(head + sep + tail, sep) == [head, tail]
  {
    var s := head + sep + tail;
    assert s[|head|..|head| + |sep|] == sep;
    assert OccursAt(s, sep, |head|);
    var i := IndexOf(s, sep).value;
    if i < |head| {
      if i + |sep| <= |head| {
        assert s[i..i + |sep|] == head[i..i + |sep|];
        assert OccursAt(head, sep, i);
        ContainsOccurrence(head, sep);
        assert false;
      } else {
        assert false;
      }
    }
    assert i == |head|;
    assert s[..i] == head;
    assert s[i + |sep|..] == tail;
    assert Split(s, sep) == [head] + Split(tail, sep);
  }

  /**
   * Splitting `head + sep + tail` when no occurrence of the separator starts
   * inside `head`: the first piece is `head`, the rest is the split of `tail`.
   */
  lemma SplitAt(head: string, sep: string, tail: string)
    requires sep != [] && !Contains(head + sep[..|sep| - 1], sep)
    ensures Split(head + sep + tail, sep) == [head] + Split(tail, sep)
  {
    var s := head + sep + tail;
    assert s[|head|..|head| + |sep|] == sep;
    assert OccursAt(s, sep, |head|);
    var i := IndexOf(s, sep).value;
    if i < |head| {
      var front := head + sep[..|sep| - 1];
      assert s[..|head| + |sep| - 1] == front;
      assert front[i..i + |sep|] == s[i..i + |sep|];
      assert OccursAt(front, sep, i);
      ContainsOccurrence(front, sep);
      assert false;
    }
    assert s[..i] == head;
    assert s[i + |sep|..] == tail;
  }

  /** `a + sep + b`, with the separator nowhere else, splits into `a` and `b`. */
  lemma SplitTwo(a: string, sep: string, b: string)
    requires sep != [] && !Contains(a + sep[..|sep| - 1], sep) && !Contains(b, sep)
    ensures Split(a + sep + b, sep) == [a, b]
  {
    SplitAt(a, sep, b);
    SplitNone(b, sep);
  }

  /** The last piece of a split on one character is what follows the last occurrence of that character. */
  lemma {:induction false} SplitLast(head: string, c: char, tail: string)
    requires c !in tail
    ensures var pieces := Split(head + [c] + tail, [c]); pieces[|pieces| - 1] == tail
    decreases |head|
  {
    var s := head + [c] + tail;
    assert OccursAt(s, [c], |head|);
    var i := IndexOf(s, [c]).value;
    SplitStep(s, [c], i);
    if i < |head| {
      assert s[i + 1..] == head[i + 1..] + [c] + tail;
      SplitLast(head[i + 1..], c, tail);
    } else {
      assert s[i + 1..] == tail;
      ContainsChar(tail, c);
      SplitNone(tail, [c]);
    }
  }

  /** A text that contains `sub` contains every front part of `sub`. */
  lemma ContainsHead(s: string, sub: string, k: nat)
    requires k <= |sub| && Contains(s, sub)
    ensures Contains(s, sub[..k])
  {
    var i := IndexOf(s, sub).value;
    assert s[i..i + k] == s[i..i + |sub|][..k];
    assert OccursAt(s, sub[..k], i);
    ContainsOccurrence(s, sub[..k]);
  }

  /** A text without the separator splits into itself alone. */
  lemma SplitNone(s: string, sep: string)
    requires sep != [] && !Contains(s, sep)
    ensures Split(s, sep) == [s]
  {
  }

  /** A text shorter than `sub` does not contain it. */
  lemma ShortFree(s: string, sub: string)
    requires |s| < |sub|
    ensures !Contains(s, sub)
  {
  }

  /** A text that contains `sub` contains every tail of `sub`. */
  lemma ContainsTail(s: string, sub: string, k: nat)
    requires k <= |sub| && Contains(s, sub)
    ensures Contains(s, sub[k..])
  {
    var i := IndexOf(s, sub).value;
    assert s[i + k..i + |sub|] == s[i..i + |sub|][k..];
    assert OccursAt(s, sub[k..], i + k);
    ContainsOccurrence(s, sub[k..]);
  }

  /** `s.replace(target, replacement)`: every non-overlapping occurrence, found from the left. */
  function Replace(s: string, target: string, replacement: string): (r: string)
    requires target != []
    decreases |s|
  {
    var found := IndexOf(s, target);
    if found.None? then s
    else s[..found.value] + replacement + Replace(s[found.value + |target|..], target, replacement)
  }

  /** At the first occurrence `i`, the replacement takes the target's place and the rest is replaced in turn. */
  lemma ReplaceStep(s: string, target: string, replacement: string, i: nat)
    requires target != [] && IndexOf(s, target) == Some(i)
    ensures Replace(s, target, replacement) == s[..i] + replacement + Replace(s[i + |target|..], target, replacement)
  {
    assert IndexOf(s, target).value == i;
    var rest := s[i + |target|..];
    assert Replace(s, target, replacement) == s[..i] + replacement + Replace(rest, target, replacement);
  }

  /** Replacing is splitting on the target and joining with the replacement. */
  lemma {:induction false} ReplaceIsSplitJoin(s: string, target: string, replacement: string)
    requires target != []
    ensures Replace(s, target, replacement) == Join(Split(s, target), replacement)
    decreases |s|
  {
    match IndexOf(s, target)
    case None =>
    case Some(i) =>
      var rest := s[i + |target|..];
      SplitStep(s, target, i);
      ReplaceStep(s, target, replacement, i);
      ReplaceIsSplitJoin(rest, target, replacement);
      JoinCons(s[..i], Split(rest, target), replacement);
  }

  /** Joining with one more piece at the end appends the separator and the piece. */
  lemma {:induction false} JoinSnoc(pieces: seq<string>, last: string, sep: string)
    requires |pieces| >= 1
    ensures Join(pieces + [last], sep) == Join(pieces, sep) + sep + last
  {
    if |pieces| > 1 {
      JoinSnoc(pieces[1..], last, sep);
      assert (pieces + [last])[1..] == pieces[1..] + [last];
    } else {
      assert (pieces + [last])[1..] == [last];
    }
  }

  /**
   * When the separator's first character does not occur in `head`, the first
   * occurrence of the separator in `head + sep + tail` is the one after `head`.
   */
  lemma SplitFirst(head: string, sep: string, tail: string)
    requires sep != [] && sep[0] !in head
    ensures Split(head + sep + tail, sep) == [head] + Split(tail, sep)
  {
    var s := head + sep + tail;
    assert s[|head|..|head| + |sep|] == sep;
    assert OccursAt(s, sep, |head|);
    var i := IndexOf(s, sep).value;
    assert forall j :: 0 <= j < |head| ==> s[j] == head[j];
    assert i == |head|;
    assert s[..i] == head;
    assert s[i + |sep|..] == tail;
  }

  /**
   * When the separator's first character does not occur in `head`, the first
   * piece of a split of `head + rest` begins with `head`.
   */
  lemma SplitKeepsHead(head: string, sep: string, rest: string)
    requires sep != [] && sep[0] !in head
    ensures |Split(head + rest, sep)[0]| >= |head|
    ensures Split(head + rest, sep)[0][..|head|] == head
  {
    var s := head + rest;
    var found := IndexOf(s, sep);
    if found.Some? {
      var i := found.value;
      assert forall j :: 0 <= j < |head| ==> s[j] == head[j];
      assert i >= |head|;
      assert s[..i][..|head|] == head;
    }
  }

  /** Splitting pieces joined with a separator that none of them touches gives the pieces back. */
  lemma {:induction false} JoinSplit(pieces: seq<string>, sep: string)
    requires |pieces| >= 1 && sep != []
    requires forall k :: 0 <= k < |pieces| ==> sep[0] !in pieces[k]
    ensures Split(Join(pieces, sep), sep) == pieces
  {
    if |pieces| == 1 {
      if Contains(pieces[0], sep) {
        ContainsFirstChar(pieces[0], sep);
      }
    } else {
      JoinSplit(pieces[1..], sep);
      SplitFirst(pieces[0], sep, Join(pieces[1..], sep));
    }
  }

  /**
   * `s.split("")`: an empty separator matches before every character and at
   * the end, so the pieces are an empty string, each character, and an empty
   * string.
   */
  function SplitOnEmpty(s: string): (pieces: seq<string>)
    ensures |pieces| == |s| + 2 && pieces[0] == [] && pieces[|s| + 1] == []
    ensures forall i :: 0 <= i < |s| ==> pieces[i + 1] == [s[i]]
  {
    [[]] + seq(|s|, i requires 0 <= i < |s| => [s[i]]) + [[]]
  }

  lemma JoinCons(head: string, pieces: seq<string>, sep: string)
    requires |pieces| >= 1
    ensures Join([head] + pieces, sep) == head + sep + Join(pieces, sep)
  {
    assert ([head] + pieces)[1..] == pieces;
  }

  /** `s.substring(from, to)`; a range outside `s` throws. */
  function Substring(s: string, from: int, to: int): (r: Result<string>)
    ensures r.Ok? <==> 0 <= from <= to <= |s|
    ensures r.Ok? ==> |r.value| == to - from && s[from..to] == r.value
  {
    if 0 <= from <= to <= |s| then Ok(s[from..to]) else Err(IndexOutOfBounds)
  }

  /** How a nullable string prints in a string template: its text, or `null`. */
  function TemplateText(s: Option<string>): string {
    if s.Some? then s.value else "null"
  }

  predicate IsDigit(c: char) {
    '0' <= c <= '9'
  }

  predicate AllDigits(s: string) {
    forall i :: 0 <= i < |s| ==> IsDigit(s[i])
  }

  function DigitChar(d: nat): (c: char)
    requires d < 10
    ensures IsDigit(c) && c as int - '0' as int == d
  {
    ('0' as int + d) as char
  }

  /** The decimal text of a natural number, without leading zeros. */
  function NatToString(n: nat): (r: string)
    ensures |r| >= 1 && AllDigits(r)
  {
    if n < 10 then [DigitChar(n)] else NatToString(n / 10) + [DigitChar(n % 10)]
  }

  /** The decimal text of an integer, as Kotlin's string templates print it. */
  function IntToString(i: int): string {
    if i < 0 then "-" + NatToString(-i) else NatToString(i)
  }

  /** The value of a run of decimal digits. */
  function DigitsValue(s: string): nat
    requires AllDigits(s)
  {
    if s == [] then 0 else DigitsValue(s[..|s| - 1]) * 10 + (s[|s| - 1] as int - '0' as int)
  }

  const MinInt: int := -0x8000_0000
  const MaxInt: int := 0x7fff_ffff

  /**
   * `s.toInt()`: an optional sign followed by at least one decimal digit,
   * within the range of a 32-bit Int; anything else throws.
   */
  function ParseInt(s: string): (r: Result<int>)
    ensures r.Ok? ==> MinInt <= r.value <= MaxInt
    ensures r.Err? ==> r.error == NumberFormat
  {
    var negative := |s| > 0 && s[0] == '-';
    var digits := if |s| > 0 && (s[0] == '-' || s[0] == '+') then s[1..] else s;
    if digits == [] || !AllDigits(digits) then Err(NumberFormat)
    else
      var v: int := if negative then 0 - DigitsValue(digits) else DigitsValue(digits);
      if MinInt <= v <= MaxInt then Ok(v) else Err(NumberFormat)
  }

  lemma {:induction false} NatToStringValue(n: nat)
    ensures DigitsValue(NatToString(n)) == n
  {
    if n >= 10 {
      NatToStringValue(n / 10);
      var s := NatToString(n);
      assert s[..|s| - 1] == NatToString(n / 10);
    }
  }

  /** Printing an Int and parsing the text back gives the Int. */
  lemma IntToStringRoundTrip(i: int)
    requires MinInt <= i <= MaxInt
    ensures ParseInt(IntToString(i)) == Ok(i)
  {
    NatToStringValue(if i < 0 then -i else i);
    if i < 0 {
      assert ("-" + NatToString(-i))[1..] == NatToString(-i);
    }
  }

  /** The decimal text of an Int is made of digits and a leading minus sign. */
  lemma IntToStringChars(i: int)
    ensures forall k :: 0 <= k < |IntToString(i)| ==> IsDigit(IntToString(i)[k]) || IntToString(i)[k] == '-'
  {
    if i < 0 {
      assert forall k :: 1 <= k < |IntToString(i)| ==> IntToString(i)[k] == NatToString(-i)[k - 1];
    }
  }

  /** The regular expression `s\d+` matched against the whole of `s`. */
  predicate IsStackVarName(s: string) {
    |s| >= 2 && s[0] == 's' && AllDigits(s[1..])
  }

  /** The regular expression `s\d+` found somewhere in `s`. */
  predicate ContainsStackVarName(s: string) {
    exists i :: 0 <= i < |s| - 1 && s[i] == 's' && IsDigit(s[i + 1])
  }

  /** The name of stack slot `n`, `s{n}`. */
  function StackVar(n: int): string {
    "s" + IntToString(n)
  }

  /** The name of local variable `k`, `v{k}`. */
  function LocalVar(k: int): string {
    "v" + IntToString(k)
  }

  /** `s{n}` is a stack-slot name exactly when the slot number is not negative. */
  lemma StackVarName(n: int)
    ensures IsStackVarName(StackVar(n)) <==> n >= 0
  {
    if n < 0 {
      assert StackVar(n)[1] == '-';
    } else {
      assert StackVar(n)[1..] == NatToString(n);
    }
  }
}
