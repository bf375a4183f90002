/**
  The loyalty-points account (_DioAccount/app.js): HTML escaping of names and
  notes, the balance rule of a movement, the amounts of the earn and redeem
  forms, and the title a form gives its movement.

  The account document and its history live in a remote database; here they are
  the fields of `Account`, and a transaction that throws is a `Failure`.
 */
module Loyalty {

  import opened Wrappers
  import opened Text

  /** The replacement `escapeHtml` makes for one character. */
  function EscapeChar(c: char): string {
    match c
    case '&' => "&amp;"
    case '<' => "&lt;"
    case '>' => "&gt;"
    case '"' => "&quot;"
    case '\'' => "&#39;"
    case _ => [c]
  }

  predicate IsSpecial(c: char) {
    c == '&' || c == '<' || c == '>' || c == '"' || c == '\''
  }

  /** Characters that may not appear in escaped text. */
  predicate IsMarkup(c: char) {
    c == '<' || c == '>' || c == '"' || c == '\''
  }

  /**
    `escapeHtml(s)`: every `& < > " '` replaced by its entity, every other
    character kept. The result never holds `< > " '`, and a string without the
    five special characters comes back unchanged.
   */
  function EscapeHtml(s: string): (r: string)
    ensures forall i :: 0 <= i < |r| ==> !IsMarkup(r[i])
    ensures (forall i :: 0 <= i < |s| ==> !IsSpecial(s[i])) ==> r == s
    ensures |r| >= |s|
  {
    if s == [] then []
    else EscapeChar(s[0]) + EscapeHtml(s[1..])
  }

  /** Escaping works character by character: it distributes over concatenation. */
  lemma {:induction false} EscapeHtmlAppend(a: string, b: string)
    ensures EscapeHtml(a + b) == EscapeHtml(a) + EscapeHtml(b)
  {
    if a == [] {
      assert a + b == b;
    } else {
      assert (a + b)[0] == a[0] && (a + b)[1..] == a[1..] + b;
      EscapeHtmlAppend(a[1..], b);
    }
  }

  /** The five entities `escapeHtml` produces, decoded; any other text is copied. */
  function UnescapeHtml(s: string): string
    decreases |s|
  {
    if s == [] then []
    else if StartsWith(s, "&amp;") then ['&'] + UnescapeHtml(s[5..])
    else if StartsWith(s, "&lt;") then ['<'] + UnescapeHtml(s[4..])
    else if StartsWith(s, "&gt;") then ['>'] + UnescapeHtml(s[4..])
    else if StartsWith(s, "&quot;") then ['"'] + UnescapeHtml(s[6..])
    else if StartsWith(s, "&#39;") then ['\''] + UnescapeHtml(s[5..])
    else [s[0]] + UnescapeHtml(s[1..])
  }

  /** Decoding the entities gives back the original text: escaping loses nothing. */
  lemma {:induction false} UnescapeEscape(s: string)
    ensures UnescapeHtml(EscapeHtml(s)) == s
  {
    if s != [] {
      UnescapeEscape(s[1..]);
      UnescapeChar(s[0], EscapeHtml(s[1..]));
      assert [s[0]] + s[1..] == s;
    }
  }

  /** Decoding the replacement of one character gives that character back. */
  lemma {:induction false} UnescapeChar(c: char, rest: string)
    ensures UnescapeHtml(EscapeChar(c) + rest) == [c] + UnescapeHtml(rest)
  {
    match c
    case '&' => UnescapeAmp(rest);
    case '<' => UnescapeLt(rest);
    case '>' => UnescapeGt(rest);
    case '"' => UnescapeQuot(rest);
    case '\'' => UnescapeApos(rest);
    case _ => UnescapePlain(c, rest);
  }

  lemma {:induction false} UnescapePlain(c: char, rest: string)
    requires !IsSpecial(c)
    ensures UnescapeHtml([c] + rest) == [c] + UnescapeHtml(rest)
  {
    var w := [c] + rest;
    assert w[0] == c && w[1..] == rest;
    NotPrefix(w, "&amp;", 0);
    NotPrefix(w, "&lt;", 0);
    NotPrefix(w, "&gt;", 0);
    NotPrefix(w, "&quot;", 0);
    NotPrefix(w, "&#39;", 0);
  }

  lemma {:induction false} UnescapeAmp(rest: string)
    ensures UnescapeHtml("&amp;" + rest) == ['&'] + UnescapeHtml(rest)
  {
    var w := "&amp;" + rest;
    assert w[..5] == "&amp;" && w[5..] == rest;
  }

  lemma {:induction false} UnescapeLt(rest: string)
    ensures UnescapeHtml("&lt;" + rest) == ['<'] + UnescapeHtml(rest)
  {
    var w := "&lt;" + rest;
    NotPrefix(w, "&amp;", 1);
    assert w[..4] == "&lt;" && w[4..] == rest;
  }

  lemma {:induction false} UnescapeGt(rest: string)
    ensures UnescapeHtml("&gt;" + rest) == ['>'] + UnescapeHtml(rest)
  {
    var w := "&gt;" + rest;
    NotPrefix(w, "&amp;", 1);
    NotPrefix(w, "&lt;", 1);
    assert w[..4] == "&gt;" && w[4..] == rest;
  }

  lemma {:induction false} UnescapeQuot(rest: string)
    ensures UnescapeHtml("&quot;" + rest) == ['"'] + UnescapeHtml(rest)
  {
    var w := "&quot;" + rest;
    NotPrefix(w, "&amp;", 1);
    NotPrefix(w, "&lt;", 1);
    NotPrefix(w, "&gt;", 1);
    assert w[..6] == "&quot;" && w[6..] == rest;
  }

  lemma {:induction false} UnescapeApos(rest: string)
    ensures UnescapeHtml("&#39;" + rest) == ['\''] + UnescapeHtml(rest)
  {
    var w := "&#39;" + rest;
    NotPrefix(w, "&amp;", 1);
    NotPrefix(w, "&lt;", 1);
    NotPrefix(w, "&gt;", 1);
    NotPrefix(w, "&quot;", 1);
    assert w[..5] == "&#39;" && w[5..] == rest;
  }

  // ---------------------------------------------------------------------------
  // The title of a movement: the option text without a trailing " (...)".

  /** Every character from i up to (not including) j is white space. */
  predicate SpacesIn(s: string, i: int, j: int) {
    0 <= i <= j <= |s| && forall k :: i <= k < j ==> IsSpace(s[k])
  }

  /** No character from i up to (not including) j ends a line. */
  predicate NoBreakIn(s: string, i: int, j: int) {
    0 <= i <= j <= |s| && forall k :: i <= k < j ==> !IsLineTerminator(s[k])
  }

  /**
    The pattern `\s*\(.*\)\s*$` matches from p to the end of `s`, with its
    opening parenthesis at q and its closing one at r (`.` matches anything but
    a line terminator).
   */
  predicate ParenMatch(s: string, p: int, q: int, r: int) {
    && 0 <= p <= q < r < |s|
    && SpacesIn(s, p, q) && s[q] == '(' && s[r] == ')'
    && NoBreakIn(s, q + 1, r) && SpacesIn(s, r + 1, |s|)
  }

  ghost predicate MatchesFrom(s: string, p: int) {
    exists q, r :: ParenMatch(s, p, q, r)
  }

  /** The index of the last line terminator in `s`, or -1. */
  function LastLineTerminator(s: string): (k: int)
    ensures -1 <= k < |s|
    ensures k >= 0 ==> IsLineTerminator(s[k])
    ensures NoBreakIn(s, k + 1, |s|)
  {
    if s == [] then -1
    else if IsLineTerminator(s[|s| - 1]) then |s| - 1
    else
      var k := LastLineTerminator(s[..|s| - 1]);
      assert forall j :: k + 1 <= j < |s| - 1 ==> s[..|s| - 1][j] == s[j];
      k
  }

  /** The trailing white space that `TrailingSpaces` counts, as a range of `s`. */
  lemma {:induction false} TrailingRange(s: string)
    ensures SpacesIn(s, |s| - TrailingSpaces(s), |s|)
  {
    var n := TrailingSpaces(s);
    forall k | |s| - n <= k < |s|
      ensures IsSpace(s[k])
    {
      assert s[|s| - n..][k - (|s| - n)] == s[k];
    }
  }

  /** In any match, the closing parenthesis is the last character that is not white space. */
  lemma {:induction false} CloseIsLast(s: string, p: int, q: int, r: int)
    requires ParenMatch(s, p, q, r)
    ensures r == |s| - TrailingSpaces(s) - 1
  {
    TrailingRange(s);
  }

  /** In any match, the opening parenthesis comes after the last line break before the closing one. */
  lemma {:induction false} OpenAfterBreak(s: string, p: int, q: int, r: int)
    requires ParenMatch(s, p, q, r)
    ensures LastLineTerminator(s[..r]) < q
  {
    var l := LastLineTerminator(s[..r]);
    if l >= 0 {
      assert s[..r][l] == s[l];
    }
  }

  /** The pattern matches from p, and from no earlier position. */
  ghost predicate LeftmostMatchAt(s: string, p: int) {
    MatchesFrom(s, p) && forall p' :: 0 <= p' < p ==> !MatchesFrom(s, p')
  }

  /**
    Where the leftmost match of `\s*\(.*\)\s*$` starts, found as the regular
    expression engine would: the closing parenthesis must be the last character
    that is not white space, the opening one is the first `(` after the last
    line break before it, and the match starts where the white space before
    that `(` starts.
   */
  function CutPoint(s: string): (c: Option<nat>)
    ensures c.None? ==> forall p :: !MatchesFrom(s, p)
    ensures c.Some? ==> c.value <= |s| && LeftmostMatchAt(s, c.value)
  {
    var n := TrailingSpaces(s);
    if n == |s| || s[|s| - n - 1] != ')' then
      NoMatchWithoutClose(s);
      None
    else
      var r := |s| - n - 1;
      var l := LastLineTerminator(s[..r]);
      match IndexOf(s[l + 1..r], '(')
      case None =>
        NoMatchWithoutOpen(s, r, l);
        None
      case Some(j) =>
        var q := l + 1 + j;
        var p := q - TrailingSpaces(s[..q]);
        LeftmostMatch(s, p, q, r, l);
        LeftmostFirst(s, p, q, r, l);
        Some(p)
  }

  /**
    `text.replace(/\s*\(.*\)\s*$/, "")`: when the pattern matches, the text before
    its leftmost match; otherwise the text unchanged.
   */
  function StripTitle(s: string): (t: string)
    ensures (forall p :: !MatchesFrom(s, p)) ==> t == s
    ensures forall p :: LeftmostMatchAt(s, p) ==> t == s[..p]
  {
    match CutPoint(s)
    case None => s
    case Some(p) =>
      LeftmostUnique(s, p);
      s[..p]
  }

  /** At most one position is where the leftmost match starts. */
  lemma {:induction false} LeftmostUnique(s: string, p: int)
    requires LeftmostMatchAt(s, p)
    ensures forall p' :: LeftmostMatchAt(s, p') ==> p' == p
  {
  }

  /** Whenever the pattern matches somewhere, it has a leftmost match, so the title is cut. */
  lemma {:induction false} StripTitleCuts(s: string, p0: int)
    requires MatchesFrom(s, p0)
    ensures exists p :: 0 <= p <= p0 && LeftmostMatchAt(s, p) && StripTitle(s) == s[..p]
  {
    var c := CutPoint(s);
    assert c.Some?;
    var p := c.value;
    assert LeftmostMatchAt(s, p);
    assert p <= p0;
  }

  lemma {:induction false} NoMatchWithoutClose(s: string)
    requires var n := TrailingSpaces(s); n == |s| || s[|s| - n - 1] != ')'
    ensures forall p :: !MatchesFrom(s, p)
  {
    forall p, q, r | ParenMatch(s, p, q, r)
      ensures false
    {
      CloseIsLast(s, p, q, r);
    }
  }

  lemma {:induction false} NoMatchWithoutOpen(s: string, r: int, l: int)
    requires r == |s| - TrailingSpaces(s) - 1 && 0 <= r
    requires l == LastLineTerminator(s[..r])
    requires IndexOf(s[l + 1..r], '(').None?
    ensures forall p :: !MatchesFrom(s, p)
  {
    NotInRange(s, l + 1, r, '(');
    forall p, q', r' | ParenMatch(s, p, q', r')
      ensures false
    {
      CloseIsLast(s, p, q', r');
      OpenAfterBreak(s, p, q', r');
    }
  }

  /** A character missing from a slice is missing from every position of that range. */
  lemma {:induction false} NotInRange(s: string, i: int, j: int, c: char)
    requires 0 <= i <= j <= |s| && c !in s[i..j]
    ensures forall k :: i <= k < j ==> s[k] != c
  {
    forall k | i <= k < j
      ensures s[k] != c
    {
      assert s[i..j][k - i] == s[k];
    }
  }

  /** The white space just before position q, as a range. */
  lemma {:induction false} SpaceRunBefore(s: string, p: int, q: int)
    requires 0 <= q <= |s| && p == q - TrailingSpaces(s[..q])
    ensures SpacesIn(s, p, q)
  {
    TrailingRange(s[..q]);
    forall k | p <= k < q
      ensures IsSpace(s[k])
    {
      assert s[..q][k] == s[k];
    }
  }

  /** The white space just before position q starts at 0 or just after a non-space. */
  lemma {:induction false} SpaceRunStart(s: string, p: int, q: int)
    requires 0 <= q <= |s| && p == q - TrailingSpaces(s[..q])
    ensures 0 <= p <= q && (p > 0 ==> !IsSpace(s[p - 1]))
  {
    if p > 0 {
      assert s[..q][p - 1] == s[p - 1];
    }
  }

  /** Between the last line break before r and r itself there is no line break. */
  lemma {:induction false} NoBreakBefore(s: string, r: int)
    requires 0 <= r <= |s|
    ensures NoBreakIn(s, LastLineTerminator(s[..r]) + 1, r)
  {
    var l := LastLineTerminator(s[..r]);
    forall k | l + 1 <= k < r
      ensures !IsLineTerminator(s[k])
    {
      assert s[..r][k] == s[k];
    }
  }

  /** The opening parenthesis `IndexOf` found, with its leading white space, starts a match. */
  lemma {:induction false} LeftmostMatch(s: string, p: int, q: int, r: int, l: int)
    requires r == |s| - TrailingSpaces(s) - 1 && 0 <= r && s[r] == ')'
    requires l == LastLineTerminator(s[..r])
    requires l + 1 <= q < r && IndexOf(s[l + 1..r], '(') == Some(q - (l + 1))
    requires p == q - TrailingSpaces(s[..q])
    ensures ParenMatch(s, p, q, r)
  {
    FirstOpen(s, l, q, r);
    MatchFound(s, p, q, r);
  }

  /** ... and no match starts before it. */
  lemma {:induction false} LeftmostFirst(s: string, p: int, q: int, r: int, l: int)
    requires r == |s| - TrailingSpaces(s) - 1 && 0 <= r && s[r] == ')'
    requires l == LastLineTerminator(s[..r])
    requires l + 1 <= q < r && IndexOf(s[l + 1..r], '(') == Some(q - (l + 1))
    requires p == q - TrailingSpaces(s[..q])
    ensures forall p' :: 0 <= p' < p ==> !MatchesFrom(s, p')
  {
    FirstOpen(s, l, q, r);
    SpaceRunStart(s, p, q);
    NoEarlierMatches(s, p, q, r, l);
  }

  lemma {:induction false} NoEarlierMatches(s: string, p: int, q: int, r: int, l: int)
    requires r == |s| - TrailingSpaces(s) - 1 && 0 <= r && l == LastLineTerminator(s[..r])
    requires 0 <= p <= q < |s| && s[q] == '(' && (p > 0 ==> !IsSpace(s[p - 1]))
    requires forall k :: l + 1 <= k < q ==> s[k] != '('
    ensures forall p' :: 0 <= p' < p ==> !MatchesFrom(s, p')
  {
    forall p', q', r' | 0 <= p' < p && ParenMatch(s, p', q', r')
      ensures false
    {
      CloseIsLast(s, p', q', r');
      NoEarlierMatch(s, p, q, l, p', q', r');
    }
  }

  /** What `IndexOf` found: an opening parenthesis at q and none between l and q. */
  lemma {:induction false} FirstOpen(s: string, l: int, q: int, r: int)
    requires 0 <= l + 1 <= q < r <= |s| && IndexOf(s[l + 1..r], '(') == Some(q - (l + 1))
    ensures s[q] == '(' && forall k :: l + 1 <= k < q ==> s[k] != '('
  {
    assert s[q] == s[l + 1..r][q - (l + 1)];
    assert s[l + 1..r][..q - (l + 1)] == s[l + 1..q];
    NotInRange(s, l + 1, q, '(');
  }

  lemma {:induction false} MatchFound(s: string, p: int, q: int, r: int)
    requires r == |s| - TrailingSpaces(s) - 1 && 0 <= r && s[r] == ')'
    requires LastLineTerminator(s[..r]) < q < r && s[q] == '('
    requires p == q - TrailingSpaces(s[..q])
    ensures ParenMatch(s, p, q, r)
  {
    TrailingRange(s);
    SpaceRunBefore(s, p, q);
    NoBreakBefore(s, r);
  }

  /**
    A match from p' has its opening parenthesis at or after q, the first one
    after the last line break, so it cannot start before the white space that
    precedes q.
   */
  lemma {:induction false} NoEarlierMatch(s: string, p: int, q: int, l: int, p': int, q': int, r': int)
    requires ParenMatch(s, p', q', r') && 0 <= p' && 0 <= p <= q < |s| && s[q] == '('
    requires l == LastLineTerminator(s[..r'])
    requires forall k :: l + 1 <= k < q ==> s[k] != '('
    requires p > 0 ==> !IsSpace(s[p - 1])
    ensures p <= p'
  {
    OpenAfterBreak(s, p', q', r');
    assert q <= q';
  }

  /** The option text has a suffix " (+5 pts)", which the strip removes together with its leading blank. */
  lemma {:induction false} StripExample()
    ensures StripTitle("Dishes (+5 pts)") == "Dishes"
  {
    var s := "Dishes (+5 pts)";
    assert ParenMatch(s, 6, 7, 14);
    assert TrailingSpaces(s) == 0;
    var l := LastLineTerminator(s[..14]);
    assert forall k :: 0 <= k < 7 ==> s[k] != '(';
    NoEarlierMatches(s, 6, 7, 14, l);
    assert LeftmostMatchAt(s, 6);
    assert s[..6] == "Dishes";
  }

  /**
    The title of an earn or redeem movement: the selected option's text with its
    suffix stripped, or the fallback when there is no option or its text is empty.
   */
  function MovementTitle(optionText: Option<string>, fallback: string): (t: string)
    ensures optionText.None? || optionText.value == [] ==> t == fallback
    ensures optionText.Some? && optionText.value != [] ==> t == StripTitle(optionText.value)
  {
    match optionText
    case Some(text) => if text == [] then fallback else StripTitle(text)
    case None => fallback
  }

  // ---------------------------------------------------------------------------
  // Amounts and the balance rule.

  /**
    `Math.max(0, Number(field.value || 0))` for a number field: an empty field
    (`None`) counts as 0, and a negative entry is raised to 0.
   */
  function Amount(field: Option<real>): (a: real)
    ensures a >= 0.0
    ensures field.Some? && field.value >= 0.0 ==> a == field.value
    ensures field.None? || field.value <= 0.0 ==> a == 0.0
  {
    var v := field.GetOr(0.0);
    if v < 0.0 then 0.0 else v
  }

  /** The earn form's delta: the amount, never negative. */
  function EarnDelta(field: Option<real>): (d: real)
    ensures d >= 0.0 && d == Amount(field)
  {
    Amount(field)
  }

  /** The redeem form's delta: minus the amount, never positive. */
  function RedeemDelta(field: Option<real>): (d: real)
    ensures d <= 0.0 && d == -Amount(field)
  {
    -Amount(field)
  }

  /** One entry of the transaction history: `{ delta, title, note }`. */
  datatype Movement = Movement(delta: real, title: string, note: string)

  /**
    The balance rule of `addMovement`: the new balance `current + delta`, or the
    error "Not enough points." when it would be negative.
   */
  function NextBalance(current: real, delta: real): (r: Result<real, string>)
    ensures r.Success? <==> current + delta >= 0.0
    ensures r.Success? ==> r.value == current + delta && r.value >= 0.0
    ensures r.Failure? ==> r.error == "Not enough points."
  {
    if current + delta < 0.0 then Failure("Not enough points.") else Success(current + delta)
  }

  /** An earn movement on a non-negative balance always goes through, and raises the balance. */
  lemma {:induction false} EarnAlwaysSucceeds(current: real, field: Option<real>)
    requires current >= 0.0
    ensures NextBalance(current, EarnDelta(field)).Success?
    ensures NextBalance(current, EarnDelta(field)).value >= current
  {
  }

  /** A redemption goes through exactly when its cost is covered by the balance. */
  lemma {:induction false} RedeemNeedsCover(current: real, field: Option<real>)
    ensures NextBalance(current, RedeemDelta(field)).Success? <==> Amount(field) <= current
  {
  }

  /** The sum of the deltas of a history. */
  function Total(ms: seq<Movement>): real {
    if ms == [] then 0.0 else Total(ms[..|ms| - 1]) + ms[|ms| - 1].delta
  }

  /**
    The account: the stored balance (`None` when the account document or its
    `points` field is missing) and the history of movements. `opening` is the
    balance before the first recorded movement.
   */
  class Account {
    var points: Option<real>
    var history: seq<Movement>
    ghost const opening: real

    /** The balance `addMovement` reads: a missing balance counts as 0. */
    function Current(): real
      reads this
    {
      points.GetOr(0.0)
    }

    /** The balance is the opening balance plus the recorded deltas. */
    ghost predicate Valid()
      reads this
    {
      Current() == opening + Total(history)
    }

    /** An account with a stored (or missing) balance and no recorded movements yet. */
    constructor (stored: Option<real>)
      ensures Valid() && points == stored && history == []
    {
      points := stored;
      history := [];
      opening := stored.GetOr(0.0);
    }

    /**
      `addMovement({ delta, title, note })`: a movement that would make the
      balance negative fails and writes nothing; any other writes exactly one
      movement and the new balance.
     */
    method AddMovement(delta: real, title: string, note: string) returns (r: Result<real, string>)
      requires Valid()
      modifies this
      ensures Valid()
      ensures r == NextBalance(old(Current()), delta)
      ensures r.Failure? ==> points == old(points) && history == old(history)
      ensures r.Success? ==>
        points == Some(old(Current()) + delta) && history == old(history) + [Movement(delta, title, note)]
      ensures r.Success? ==> Current() >= 0.0
    {
      var current := Current();
      r := NextBalance(current, delta);
      if r.Failure? {
        return;
      }
      var before := history;
      history := history + [Movement(delta, title, note)];
      assert history[..|history| - 1] == before;
      assert Total(history) == Total(before) + delta;
      points := Some(r.value);
      assert Current() == current + delta;
    }
  }
}
