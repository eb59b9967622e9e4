/**
  The search box's history: the entered phrase is trimmed of white space,
  every earlier copy of it is removed, it is put at the front, and the list
  is cut to at most ten entries.
 */
module SearchHistory {

  /** The most phrases the history keeps. */
  const MaxHistory: nat := 10

  // ---------------------------------------------------------------------------
  // Trimming (QString::trimmed)
  // ---------------------------------------------------------------------------

  /**
    `QChar::isSpace`: the control characters 9 to 13, U+0085, and the Unicode
    space, line and paragraph separators.
   */
  predicate IsSpace(c: char)
  {
    || ('\t' <= c <= '\r') || c == ' ' || c == '\U{85}' || c == '\U{A0}'
    || c == '\U{1680}' || c == '\U{180E}' || ('\U{2000}' <= c <= '\U{200A}')
    || c == '\U{2028}' || c == '\U{2029}' || c == '\U{202F}' || c == '\U{205F}' || c == '\U{3000}'
  }

  /** Number of white-space characters at the start of `s`. */
  function LeadingSpaces(s: string): (n: nat)
    ensures n <= |s|
    ensures forall k :: 0 <= k < n ==> IsSpace(s[k])
    ensures n < |s| ==> !IsSpace(s[n])
  {
    if s == [] || !IsSpace(s[0]) then 0 else 1 + LeadingSpaces(s[1..])
  }

  /** Number of white-space characters at the end of `s`. */
  function TrailingSpaces(s: string): (n: nat)
    ensures n <= |s|
    ensures forall k :: |s| - n <= k < |s| ==> IsSpace(s[k])
    ensures n < |s| ==> !IsSpace(s[|s| - 1 - n])
  {
    if s == [] || !IsSpace(s[|s| - 1]) then 0 else 1 + TrailingSpaces(s[..|s| - 1])
  }

  /**
    `s` without its leading and trailing white space: a slice of `s` that
    neither starts nor ends with white space, and everything cut off is white
    space.
   */
  function Trimmed(s: string): (r: string)
    ensures r != [] ==> !IsSpace(r[0]) && !IsSpace(r[|r| - 1])
    ensures var i := LeadingSpaces(s);
            && i + |r| <= |s| && r == s[i..i + |r|]
            && (forall k :: 0 <= k < i ==> IsSpace(s[k]))
            && (forall k :: i + |r| <= k < |s| ==> IsSpace(s[k]))
  {
    var lead := LeadingSpaces(s);
    if lead == |s| then
      []
    else
      var trail := TrailingSpaces(s);
      assert !IsSpace(s[lead]);
      assert lead < |s| - trail;
      s[lead..|s| - trail]
  }

  /** Trimming twice is trimming once. */
  lemma TrimmedIdempotent(s: string)
    ensures Trimmed(Trimmed(s)) == Trimmed(s)
  {
    var r := Trimmed(s);
    if r != [] {
      assert LeadingSpaces(r) == 0;
      assert TrailingSpaces(r) == 0;
      assert r[0..|r|] == r;
    }
  }

  // ---------------------------------------------------------------------------
  // The history list
  // ---------------------------------------------------------------------------

  /** `QList::removeAll`: `h` without any copy of `x`, the rest in order. */
  function RemoveAll(h: seq<string>, x: string): (r: seq<string>)
    ensures x !in r
    ensures forall y :: y in r ==> y in h
    ensures forall y :: y in h && y != x ==> y in r
    ensures |r| <= |h|
  {
    if h == [] then []
    else if h[0] == x then RemoveAll(h[1..], x)
    else [h[0]] + RemoveAll(h[1..], x)
  }

  /** Removing distributes over concatenation, so the kept entries keep their order. */
  lemma {:induction false} RemoveAllAppend(a: seq<string>, b: seq<string>, x: string)
    ensures RemoveAll(a + b, x) == RemoveAll(a, x) + RemoveAll(b, x)
  {
    if a == [] {
      assert a + b == b;
    } else {
      assert (a + b)[1..] == a[1..] + b;
      RemoveAllAppend(a[1..], b, x);
    }
  }

  /** A list without `x` loses nothing. */
  lemma {:induction false} RemoveAllAbsent(h: seq<string>, x: string)
    requires x !in h
    ensures RemoveAll(h, x) == h
  {
    if h != [] {
      RemoveAllAbsent(h[1..], x);
    }
  }

  /** No entry occurs twice. */
  predicate NoDuplicates(h: seq<string>)
  {
    forall i, j :: 0 <= i < j < |h| ==> h[i] != h[j]
  }

  /** Removing keeps a duplicate-free list duplicate-free. */
  lemma {:induction false} RemoveAllNoDuplicates(h: seq<string>, x: string)
    requires NoDuplicates(h)
    ensures NoDuplicates(RemoveAll(h, x))
  {
    if h != [] {
      RemoveAllNoDuplicates(h[1..], x);
      if h[0] != x {
        var rest := RemoveAll(h[1..], x);
        assert h[0] !in h[1..] by {
          forall k | 0 <= k < |h[1..]| ensures h[1..][k] != h[0] { assert h[1..][k] == h[k + 1]; }
        }
        assert h[0] !in rest;
      }
    }
  }

  /** The first `n` entries, or all of them when there are fewer. */
  function Take(h: seq<string>, n: nat): seq<string>
  {
    if |h| <= n then h else h[..n]
  }

  /** The history after searching for `phrase` (already trimmed). */
  function Updated(h: seq<string>, phrase: string): seq<string>
  {
    Take([phrase] + RemoveAll(h, phrase), MaxHistory)
  }

  /**
    After a search the phrase heads the history and occurs there exactly once,
    the history holds at most ten entries, and the rest are the earlier
    entries other than the phrase, in their old order, cut to fit.
   */
  lemma UpdatedShape(h: seq<string>, phrase: string)
    ensures var r := Updated(h, phrase);
            && 1 <= |r| <= MaxHistory
            && r[0] == phrase
            && phrase !in r[1..]
            && r[1..] == Take(RemoveAll(h, phrase), MaxHistory - 1)
  {
    var rest := RemoveAll(h, phrase);
    var r := Updated(h, phrase);
    if |rest| + 1 > MaxHistory {
      assert r[1..] == rest[..MaxHistory - 1];
      assert forall y :: y in rest[..MaxHistory - 1] ==> y in rest;
    } else {
      assert r[1..] == rest;
    }
  }

  /** Every entry of the new history is the phrase or was in the old one. */
  lemma UpdatedFromOld(h: seq<string>, phrase: string)
    ensures forall y :: y in Updated(h, phrase) ==> y == phrase || y in h
  {
    var l := [phrase] + RemoveAll(h, phrase);
    assert forall y :: y in Take(l, MaxHistory) ==> y in l;
  }

  /** A history without duplicates stays without duplicates. */
  lemma UpdatedNoDuplicates(h: seq<string>, phrase: string)
    requires NoDuplicates(h)
    ensures NoDuplicates(Updated(h, phrase))
  {
    var rest := RemoveAll(h, phrase);
    RemoveAllNoDuplicates(h, phrase);
    var l := [phrase] + rest;
    assert NoDuplicates(l) by {
      forall i, j | 0 <= i < j < |l| ensures l[i] != l[j] {
        if i == 0 { assert l[j] == rest[j - 1]; assert l[j] in rest; }
        else { assert l[i] == rest[i - 1] && l[j] == rest[j - 1]; }
      }
    }
  }

  /** Searching for the same phrase again leaves the history as it is. */
  lemma UpdatedIdempotent(h: seq<string>, phrase: string)
    ensures Updated(Updated(h, phrase), phrase) == Updated(h, phrase)
  {
    var r := Updated(h, phrase);
    UpdatedShape(h, phrase);
    assert r == [phrase] + r[1..];
    RemoveAllAbsent(r[1..], phrase);
    RemoveAllAppend([phrase], r[1..], phrase);
    assert RemoveAll([phrase], phrase) == [];
  }
}
