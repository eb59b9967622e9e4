/**
  How the main window turns a media-player setting into a program and its
  arguments: the quote-aware command-line splitter, the `%F` placeholder
  substitution and the default player command, which quotes a path that
  contains a space.
 */
module CommandLine {

  /** The single quote that toggles quoting in a command line. */
  const Quote: char := '\''

  /** The placeholder replaced by the stream URL or the file name. */
  const Placeholder: string := "%F"

  /** One lexical unit of a command line once quoting is resolved. */
  datatype Sym = Sep | Ch(c: char)

  // ---------------------------------------------------------------------------
  // Lexing: what each character of a command line stands for
  // ---------------------------------------------------------------------------

  /**
    The symbols of `s` when scanning starts inside (`quoted`) or outside
    quotes: a quote toggles the mode and stands for nothing, an unquoted space
    separates arguments, every other character is part of an argument.
   */
  function Lex(s: string, quoted: bool): seq<Sym>
  {
    if s == [] then []
    else if s[0] == Quote then Lex(s[1..], !quoted)
    else (if !quoted && s[0] == ' ' then [Sep] else [Ch(s[0])]) + Lex(s[1..], quoted)
  }

  /** Whether scanning `s` from mode `quoted` ends inside quotes. */
  function QuotedAfter(s: string, quoted: bool): bool
  {
    if s == [] then quoted
    else QuotedAfter(s[1..], if s[0] == Quote then !quoted else quoted)
  }

  lemma {:induction false} LexAppend(a: string, b: string, quoted: bool)
    ensures Lex(a + b, quoted) == Lex(a, quoted) + Lex(b, QuotedAfter(a, quoted))
    ensures QuotedAfter(a + b, quoted) == QuotedAfter(b, QuotedAfter(a, quoted))
  {
    if a == [] {
      assert a + b == b;
    } else {
      assert (a + b)[1..] == a[1..] + b;
      LexAppend(a[1..], b, if a[0] == Quote then !quoted else quoted);
    }
  }

  /** The lexing of one character, the step the splitter's loop takes. */
  lemma LexOne(c: char, quoted: bool)
    ensures Lex([c], quoted) == if c == Quote then [] else if !quoted && c == ' ' then [Sep] else [Ch(c)]
    ensures QuotedAfter([c], quoted) == if c == Quote then !quoted else quoted
  {
    assert [c][1..] == [];
  }

  /** Number of quote characters in `s`. */
  function QuoteCount(s: string): nat
  {
    multiset(s)[Quote]
  }

  /** Scanning from outside quotes, the mode after `s` is the parity of its quotes. */
  lemma {:induction false} QuotedAfterParity(s: string)
    ensures QuotedAfter(s, false) == (QuoteCount(s) % 2 == 1)
  {
    if s != [] {
      var p, c := s[..|s| - 1], s[|s| - 1];
      assert s == p + [c];
      QuotedAfterParity(p);
      LexAppend(p, [c], false);
      LexOne(c, QuotedAfter(p, false));
      assert multiset(s) == multiset(p) + multiset{c};
    }
  }

  /**
    Number of unquoted spaces of `s`: spaces preceded by an even number of
    quotes.
   */
  function UnquotedSpaces(s: string): nat
  {
    if s == [] then 0
    else
      var p, c := s[..|s| - 1], s[|s| - 1];
      UnquotedSpaces(p) + (if c == ' ' && QuoteCount(p) % 2 == 0 then 1 else 0)
  }

  /** `s` with every quote and every unquoted space removed. */
  function Unquoted(s: string): string
  {
    if s == [] then []
    else
      var p, c := s[..|s| - 1], s[|s| - 1];
      Unquoted(p) + (if c == Quote || (c == ' ' && QuoteCount(p) % 2 == 0) then [] else [c])
  }

  // ---------------------------------------------------------------------------
  // Splitting a symbol stream at its separators, and joining it back
  // ---------------------------------------------------------------------------

  /** The argument characters of a symbol stream, separators dropped. */
  function Chars(t: seq<Sym>): string
  {
    if t == [] then []
    else Chars(t[..|t| - 1]) + (match t[|t| - 1] case Sep => [] case Ch(c) => [c])
  }

  /** Number of separators in a symbol stream. */
  function SepCount(t: seq<Sym>): nat
  {
    if t == [] then 0
    else SepCount(t[..|t| - 1]) + (if t[|t| - 1] == Sep then 1 else 0)
  }

  /** Cuts a symbol stream at every separator; there is always a last piece. */
  function SplitAt(t: seq<Sym>): (r: seq<string>)
    ensures |r| >= 1
  {
    if t == [] then [[]]
    else
      var r := SplitAt(t[..|t| - 1]);
      match t[|t| - 1]
      case Sep => r + [[]]
      case Ch(c) => r[..|r| - 1] + [r[|r| - 1] + [c]]
  }

  /** The characters of `w` as argument symbols. */
  function Lift(w: string): (t: seq<Sym>)
  {
    seq(|w|, i requires 0 <= i < |w| => Ch(w[i]))
  }

  /** The arguments separated by one separator each: the inverse of `SplitAt`. */
  function Join(args: seq<string>): seq<Sym>
    requires |args| >= 1
  {
    if |args| == 1 then Lift(args[0])
    else Join(args[..|args| - 1]) + [Sep] + Lift(args[|args| - 1])
  }

  /** Concatenation of a list of strings. */
  function Concat(args: seq<string>): string
  {
    if args == [] then [] else Concat(args[..|args| - 1]) + args[|args| - 1]
  }

  /** One more symbol: a separator opens a new piece, a character extends the last one. */
  lemma SplitAtSnoc(t: seq<Sym>, x: Sym)
    ensures var r := SplitAt(t);
            SplitAt(t + [x]) == match x case Sep => r + [[]] case Ch(c) => r[..|r| - 1] + [r[|r| - 1] + [c]]
  {
    assert (t + [x])[..|t|] == t;
  }

  lemma LiftSnoc(w: string, c: char)
    ensures Lift(w + [c]) == Lift(w) + [Ch(c)]
  {
  }

  /** One more plain character after a stream whose last piece is `last + w` extends that piece. */
  lemma SplitAtLiftStep(t: seq<Sym>, w: string, c: char, front: seq<string>, last: string)
    requires SplitAt(t + Lift(w)) == front + [last + w]
    ensures SplitAt(t + Lift(w + [c])) == front + [last + (w + [c])]
  {
    var x := t + Lift(w);
    LiftSnoc(w, c);
    assert t + Lift(w + [c]) == x + [Ch(c)];
    var xr := SplitAt(x);
    assert xr[..|xr| - 1] == front;
    SplitAtSnoc(x, Ch(c));
    assert (last + w) + [c] == last + (w + [c]);
  }

  lemma {:induction false} SplitAtLift(t: seq<Sym>, w: string)
    ensures var r := SplitAt(t);
            SplitAt(t + Lift(w)) == r[..|r| - 1] + [r[|r| - 1] + w]
  {
    var r := SplitAt(t);
    var front, last := r[..|r| - 1], r[|r| - 1];
    if w == [] {
      assert t + Lift(w) == t;
      assert last + w == last;
      assert front + [last] == r;
    } else {
      var w', c := w[..|w| - 1], w[|w| - 1];
      assert w == w' + [c];
      SplitAtLift(t, w');
      SplitAtLiftStep(t, w', c, front, last);
    }
  }

  /** Splitting the joined arguments gives the arguments back. */
  lemma {:induction false} SplitJoin(args: seq<string>)
    requires |args| >= 1
    ensures SplitAt(Join(args)) == args
  {
    var last := args[|args| - 1];
    if |args| == 1 {
      SplitAtLift([], last);
      assert [] + Lift(last) == Lift(last);
      var r: seq<string> := SplitAt([]);
      assert r == [[]];
      assert r[0] + last == last;
      assert r[..0] + [r[0] + last] == [last];
      assert args == [last];
      assert Join(args) == Lift(last);
    } else {
      var front := args[..|args| - 1];
      SplitJoin(front);
      var t := Join(front) + [Sep];
      assert t[..|t| - 1] == Join(front);
      assert SplitAt(t) == front + [[]];
      SplitAtLift(t, last);
      var r: seq<string> := front + [[]];
      assert r[..|r| - 1] == front;
      assert r[|r| - 1] + last == last;
      assert Join(args) == t + Lift(last);
      assert args == front + [last];
    }
  }

  lemma JoinSnoc(args: seq<string>, w: string)
    requires |args| >= 1
    ensures Join(args + [w]) == Join(args) + [Sep] + Lift(w)
  {
    var a := args + [w];
    assert a[..|a| - 1] == args;
  }

  /** `JoinExtendLast` for a list with at least two arguments, given as front and last. */
  lemma JoinExtendBehind(front: seq<string>, last: string, c: char)
    requires |front| >= 1
    ensures Join(front + [last + [c]]) == Join(front + [last]) + [Ch(c)]
  {
    LiftSnoc(last, c);
    JoinSnoc(front, last + [c]);
    JoinSnoc(front, last);
    var j, l := Join(front), Lift(last);
    assert j + [Sep] + (l + [Ch(c)]) == (j + [Sep] + l) + [Ch(c)];
  }

  /** Extending the last argument by a character extends the joined stream by it. */
  lemma JoinExtendLast(args: seq<string>, c: char)
    requires |args| >= 1
    ensures Join(args[..|args| - 1] + [args[|args| - 1] + [c]]) == Join(args) + [Ch(c)]
  {
    var front, last := args[..|args| - 1], args[|args| - 1];
    assert args == front + [last];
    if |args| == 1 {
      LiftSnoc(last, c);
      assert front + [last + [c]] == [last + [c]];
    } else {
      JoinExtendBehind(front, last, c);
    }
  }

  /** Joining the pieces of a symbol stream gives the stream back. */
  lemma {:induction false} JoinSplit(t: seq<Sym>)
    ensures Join(SplitAt(t)) == t
  {
    if t != [] {
      var p, x := t[..|t| - 1], t[|t| - 1];
      var r := SplitAt(p);
      JoinSplit(p);
      assert t == p + [x];
      SplitAtSnoc(p, x);
      match x
      case Sep =>
        JoinSnoc(r, []);
        assert Lift([]) == [];
      case Ch(c) =>
        JoinExtendLast(r, c);
    }
  }

  /** There is one more piece than there are separators. */
  lemma {:induction false} SplitAtCount(t: seq<Sym>)
    ensures |SplitAt(t)| == SepCount(t) + 1
  {
    if t != [] {
      SplitAtCount(t[..|t| - 1]);
    }
  }

  /** The pieces, concatenated, are the argument characters in order. */
  lemma {:induction false} SplitAtConcat(t: seq<Sym>)
    ensures Concat(SplitAt(t)) == Chars(t)
  {
    if t != [] {
      var p := t[..|t| - 1];
      var r := SplitAt(p);
      SplitAtConcat(p);
      match t[|t| - 1]
      case Sep =>
        var r' := r + [[]];
        assert r'[..|r'| - 1] == r;
      case Ch(c) =>
        var front := r[..|r| - 1];
        var r' := front + [r[|r| - 1] + [c]];
        assert r'[..|r'| - 1] == front;
        assert r == front + [r[|r| - 1]];
        assert Concat(r) == Concat(front) + r[|r| - 1];
    }
  }

  /** A character that is never lexed as an argument character occurs in no piece. */
  lemma {:induction false} SplitAtExcludes(t: seq<Sym>, x: char)
    requires forall i :: 0 <= i < |t| ==> t[i] != Ch(x)
    ensures forall a :: a in SplitAt(t) ==> x !in a
  {
    if t != [] {
      SplitAtExcludes(t[..|t| - 1], x);
    }
  }

  lemma {:induction false} LexExcludesQuote(s: string, quoted: bool)
    ensures forall i :: 0 <= i < |Lex(s, quoted)| ==> Lex(s, quoted)[i] != Ch(Quote)
  {
    if s != [] {
      LexExcludesQuote(s[1..], if s[0] == Quote then !quoted else quoted);
    }
  }

  /** The separators of the lexed command line are exactly its unquoted spaces. */
  lemma {:induction false} LexCounts(s: string)
    ensures SepCount(Lex(s, false)) == UnquotedSpaces(s)
    ensures Chars(Lex(s, false)) == Unquoted(s)
  {
    if s != [] {
      var p, c := s[..|s| - 1], s[|s| - 1];
      assert s == p + [c];
      LexCounts(p);
      LexAppend(p, [c], false);
      QuotedAfterParity(p);
      LexOne(c, QuotedAfter(p, false));
      var t := Lex(p, false);
      SepAppend(t, Lex([c], QuotedAfter(p, false)));
    }
  }

  lemma SepAppend(t: seq<Sym>, u: seq<Sym>)
    requires |u| <= 1
    ensures SepCount(t + u) == SepCount(t) + SepCount(u)
    ensures Chars(t + u) == Chars(t) + Chars(u)
  {
    if u == [] {
      assert t + u == t;
    } else {
      assert (t + u)[..|t + u| - 1] == t;
      assert u[..0] == [];
    }
  }

  /** A string with no quote and, outside quotes, no space lexes to its own characters. */
  lemma {:induction false} LexPlain(w: string, quoted: bool)
    requires Quote !in w
    requires !quoted ==> ' ' !in w
    ensures Lex(w, quoted) == Lift(w)
    ensures QuotedAfter(w, quoted) == quoted
  {
    if w != [] {
      LexPlain(w[1..], quoted);
      assert Lift(w) == [Ch(w[0])] + Lift(w[1..]);
    }
  }

  // ---------------------------------------------------------------------------
  // The splitter (mainwindow.cpp, splitCommandLine)
  // ---------------------------------------------------------------------------

  /**
    One character of the command line: a quote toggles the mode, an unquoted
    space opens a new argument, anything else extends the last argument.
   */
  lemma SplitStep(p: string, c: char, args: seq<string>, arg: string)
    requires args + [arg] == SplitAt(Lex(p, false))
    ensures var q := QuotedAfter(p, false);
            QuotedAfter(p + [c], false) == (if c == Quote then !q else q)
    ensures var q := QuotedAfter(p, false);
            SplitAt(Lex(p + [c], false)) ==
              if c == Quote then args + [arg]
              else if !q && c == ' ' then args + [arg] + [[]]
              else args + [arg + [c]]
  {
    var q := QuotedAfter(p, false);
    LexAppend(p, [c], false);
    LexOne(c, q);
    var t := Lex(p, false);
    if c == Quote {
      assert t + [] == t;
    } else if !q && c == ' ' {
      SplitAtSnoc(t, Sep);
    } else {
      SplitAtSnoc(t, Ch(c));
      var r := args + [arg];
      assert r[..|r| - 1] == args;
    }
  }

  /**
    Splits a command line into arguments: a single quote toggles quoting and
    is dropped, an unquoted space ends the current argument, and the argument
    in progress is always appended at the end.
   */
  method SplitCommandLine(command: string) returns (args: seq<string>)
    ensures args == SplitAt(Lex(command, false))
    ensures |args| == UnquotedSpaces(command) + 1
    ensures forall a :: a in args ==> Quote !in a
    ensures Concat(args) == Unquoted(command)
  {
    args := [];
    var arg: string := [];
    var quotes := false;
    var i := 0;
    while i < |command|
      invariant 0 <= i <= |command|
      invariant quotes == QuotedAfter(command[..i], false)
      invariant args + [arg] == SplitAt(Lex(command[..i], false))
    {
      var c := command[i];
      assert command[..i + 1] == command[..i] + [c];
      SplitStep(command[..i], c, args, arg);
      if c == Quote {
        quotes := !quotes;
      } else if !quotes && c == ' ' {
        args := args + [arg];
        arg := [];
      } else {
        arg := arg + [c];
      }
      i := i + 1;
    }
    assert command[..i] == command;
    args := args + [arg];
    SplitFacts(command, args);
  }

  /** What the pieces of a split command line are made of. */
  lemma SplitFacts(command: string, args: seq<string>)
    requires args == SplitAt(Lex(command, false))
    ensures |args| == UnquotedSpaces(command) + 1
    ensures forall a :: a in args ==> Quote !in a
    ensures Concat(args) == Unquoted(command)
  {
    SplitAtCount(Lex(command, false));
    SplitAtConcat(Lex(command, false));
    LexCounts(command);
    LexExcludesQuote(command, false);
    SplitAtExcludes(Lex(command, false), Quote);
  }

  // ---------------------------------------------------------------------------
  // Placeholder substitution (QString::replace on every argument)
  // ---------------------------------------------------------------------------

  /** Every non-overlapping occurrence of `before` in `s`, left to right, replaced by `after`. */
  function ReplaceAll(s: string, before: string, after: string): string
    requires |before| > 0
    decreases |s|
  {
    if |s| < |before| then s
    else if s[..|before|] == before then after + ReplaceAll(s[|before|..], before, after)
    else [s[0]] + ReplaceAll(s[1..], before, after)
  }

  /** Number of occurrences `ReplaceAll` replaces. */
  function Occurrences(s: string, before: string): nat
    requires |before| > 0
    decreases |s|
  {
    if |s| < |before| then 0
    else if s[..|before|] == before then 1 + Occurrences(s[|before|..], before)
    else Occurrences(s[1..], before)
  }

  /** Replacing a pattern by itself changes nothing. */
  lemma {:induction false} ReplaceAllSelf(s: string, before: string)
    requires |before| > 0
    ensures ReplaceAll(s, before, before) == s
    decreases |s|
  {
    if |s| >= |before| {
      if s[..|before|] == before {
        ReplaceAllSelf(s[|before|..], before);
        assert s == before + s[|before|..];
      } else {
        ReplaceAllSelf(s[1..], before);
        assert s == [s[0]] + s[1..];
      }
    }
  }

  /** Text before the first `%` passes through substitution untouched. */
  lemma {:induction false} ReplaceAllKeepsPlain(a: string, b: string, value: string)
    requires '%' !in a
    ensures ReplaceAll(a + b, Placeholder, value) == a + ReplaceAll(b, Placeholder, value)
  {
    if a == [] {
      assert a + b == b;
    } else {
      var s := a + b;
      assert s[0] == a[0] != '%';
      if |s| < |Placeholder| {
        assert b == [] && s == a;
        assert ReplaceAll(s, Placeholder, value) == s;
        assert ReplaceAll(b, Placeholder, value) == [];
      } else {
        assert s[..|Placeholder|] != Placeholder by { assert s[..|Placeholder|][0] == s[0]; }
        assert ReplaceAll(s, Placeholder, value) == [s[0]] + ReplaceAll(s[1..], Placeholder, value);
        assert s[1..] == a[1..] + b;
        ReplaceAllKeepsPlain(a[1..], b, value);
        assert a == [a[0]] + a[1..];
      }
    }
  }

  /** An occurrence at the front becomes the value, and the rest is substituted on its own. */
  lemma ReplaceAllAtPlaceholder(b: string, value: string)
    ensures ReplaceAll(Placeholder + b, Placeholder, value) == value + ReplaceAll(b, Placeholder, value)
  {
    var s := Placeholder + b;
    assert |s| >= |Placeholder| && s[..|Placeholder|] == Placeholder;
    assert s[|Placeholder|..] == b;
    assert !(|s| < |Placeholder|);
    assert ReplaceAll(s, Placeholder, value) == value + ReplaceAll(s[|Placeholder|..], Placeholder, value);
  }

  /** A `%` that does not start `%F` (last in the string, or before another character) is kept as it is. */
  lemma StrayPercent(b: string, value: string)
    requires b == [] || b[0] != 'F'
    ensures ReplaceAll(['%'] + b, Placeholder, value) == ['%'] + ReplaceAll(b, Placeholder, value)
  {
    var s := ['%'] + b;
    if |s| < |Placeholder| {
      assert b == [] && ReplaceAll(s, Placeholder, value) == s;
      assert ReplaceAll(b, Placeholder, value) == [];
    } else {
      assert s[..|Placeholder|] != Placeholder by { assert s[..|Placeholder|][1] == b[0]; }
      assert s[1..] == b;
      assert ReplaceAll(s, Placeholder, value) == [s[0]] + ReplaceAll(s[1..], Placeholder, value);
    }
  }

  lemma ScaleStep(o: nat, k: int)
    ensures (1 + o) * k == o * k + k
  {
  }

  /** Each occurrence changes the length by the difference of the two strings, and nothing else does. */
  lemma {:induction false} ReplaceAllLength(s: string, before: string, after: string)
    requires |before| > 0
    ensures |ReplaceAll(s, before, after)| == |s| + Occurrences(s, before) * (|after| - |before|)
    decreases |s|
  {
    if |s| >= |before| {
      if s[..|before|] == before {
        var rest := s[|before|..];
        ReplaceAllLength(rest, before, after);
        var o, k := Occurrences(rest, before), |after| - |before|;
        assert ReplaceAll(s, before, after) == after + ReplaceAll(rest, before, after);
        assert Occurrences(s, before) == 1 + o;
        assert |rest| == |s| - |before|;
        ScaleStep(o, k);
      } else {
        ReplaceAllLength(s[1..], before, after);
        assert ReplaceAll(s, before, after) == [s[0]] + ReplaceAll(s[1..], before, after);
        assert Occurrences(s, before) == Occurrences(s[1..], before);
      }
    }
  }

  /** A string without `%` holds no placeholder and is left as it is. */
  lemma {:induction false} ReplaceAllNoPercent(s: string, after: string)
    requires '%' !in s
    ensures Occurrences(s, Placeholder) == 0
    ensures ReplaceAll(s, Placeholder, after) == s
    decreases |s|
  {
    if |s| >= 2 {
      assert s[..2] != Placeholder by { assert s[0] != '%'; }
      ReplaceAllNoPercent(s[1..], after);
      assert s == [s[0]] + s[1..];
    }
  }

  /**
    Replaces the placeholder in every argument in turn; the list keeps its
    length and order.
   */
  method SubstitutePlaceholder(args: seq<string>, value: string) returns (out: seq<string>)
    ensures |out| == |args|
    ensures forall i :: 0 <= i < |args| ==> out[i] == ReplaceAll(args[i], Placeholder, value)
  {
    out := args;
    var i := 0;
    while i < |out|
      invariant 0 <= i <= |out| == |args|
      invariant forall k :: 0 <= k < i ==> out[k] == ReplaceAll(args[k], Placeholder, value)
      invariant forall k :: i <= k < |args| ==> out[k] == args[k]
    {
      var arg := ReplaceAll(out[i], Placeholder, value);
      out := out[i := arg];
      i := i + 1;
    }
  }

  // ---------------------------------------------------------------------------
  // The default player command (mainwindow.cpp, defaultStreamPlayerCommand)
  // ---------------------------------------------------------------------------

  /** Where a media player is looked for, in order. */
  const PlayerCandidates: seq<string> := [VlcUnix, VlcWindows, VlcWindowsX86]

  const VlcUnix: string := "/usr/bin/vlc"
  const VlcWindows: string := ProgramFiles + VlcInstall
  const VlcWindowsX86: string := ProgramFiles + " (x86)" + VlcInstall
  const ProgramFiles: string := "C:/Program Files"
  const VlcInstall: string := "/VideoLAN/VLC/vlc.exe"

  /** The player used when no candidate exists: found on the search path. */
  const FallbackPlayer: string := "vlc"

  /** The first candidate that `present` reports, or the fallback when there is none. */
  function FirstInstalled(candidates: seq<string>, present: string -> bool): string
  {
    if candidates == [] then FallbackPlayer
    else if present(candidates[0]) then candidates[0]
    else FirstInstalled(candidates[1..], present)
  }

  /** The chosen player is the first present candidate, or the fallback when none is present. */
  lemma {:induction false} FirstInstalledIsFirst(candidates: seq<string>, present: string -> bool)
    ensures var p := FirstInstalled(candidates, present);
            || (p == FallbackPlayer && forall j :: 0 <= j < |candidates| ==> !present(candidates[j]))
            || exists i :: 0 <= i < |candidates| && p == candidates[i] && present(p)
                             && forall j :: 0 <= j < i ==> !present(candidates[j])
  {
    if candidates != [] && !present(candidates[0]) {
      var rest := candidates[1..];
      FirstInstalledIsFirst(rest, present);
      var p := FirstInstalled(rest, present);
      if p == FallbackPlayer && forall j :: 0 <= j < |rest| ==> !present(rest[j]) {
        assert forall j :: 0 <= j < |candidates| ==> !present(candidates[j]) by {
          forall j | 0 <= j < |candidates| ensures !present(candidates[j]) {
            if j > 0 { assert candidates[j] == rest[j - 1]; }
          }
        }
      } else {
        var i :| 0 <= i < |rest| && p == rest[i] && present(p)
                 && forall j :: 0 <= j < i ==> !present(rest[j]);
        assert p == candidates[i + 1];
        forall j | 0 <= j < i + 1 ensures !present(candidates[j]) {
          if j > 0 { assert candidates[j] == rest[j - 1]; }
        }
      }
    }
  }

  /** Probes the candidates in order and stops at the first one that exists. */
  method ChooseInstalledPlayer(present: string -> bool) returns (path: string)
    ensures path == FirstInstalled(PlayerCandidates, present)
  {
    path := FallbackPlayer;
    var i := 0;
    while i < |PlayerCandidates|
      invariant 0 <= i <= |PlayerCandidates|
      invariant path == FallbackPlayer
      invariant FirstInstalled(PlayerCandidates, present) == FirstInstalled(PlayerCandidates[i..], present)
    {
      var p := PlayerCandidates[i];
      assert PlayerCandidates[i..][1..] == PlayerCandidates[i + 1..];
      if present(p) {
        path := p;
        return;
      }
      i := i + 1;
    }
  }

  /** `QDir::toNativeSeparators`: forward slashes become backslashes on Windows. */
  function NativeSeparators(path: string, windows: bool): (r: string)
    ensures |r| == |path|
  {
    if windows then seq(|path|, i requires 0 <= i < |path| => if path[i] == '/' then '\\' else path[i])
    else path
  }

  /** `QDir::fromNativeSeparators`: backslashes become forward slashes on Windows. */
  function FromNativeSeparators(path: string, windows: bool): (r: string)
    ensures |r| == |path|
  {
    if windows then seq(|path|, i requires 0 <= i < |path| => if path[i] == '\\' then '/' else path[i])
    else path
  }

  /** Converting to native separators and back restores a path written with forward slashes. */
  lemma SeparatorsRoundTrip(path: string, windows: bool)
    requires '\\' !in path
    ensures FromNativeSeparators(NativeSeparators(path, windows), windows) == path
  {
    if windows {
      var n := NativeSeparators(path, windows);
      forall i | 0 <= i < |path|
        ensures FromNativeSeparators(n, windows)[i] == path[i]
      {
        assert path[i] != '\\';
      }
    }
  }

  /** The path part of the default command, quoted when it holds a space. */
  function QuotedPath(path: string): string
  {
    if ' ' in path then [Quote] + path + [Quote] else path
  }

  /** The arguments appended after the player path. */
  const DefaultArguments: string := " --fullscreen %F"

  /** The player path, quoted when it holds a space, followed by the default arguments. */
  function StreamPlayerCommand(path: string): string
  {
    QuotedPath(path) + DefaultArguments
  }

  lemma QuotedPathLexes(path: string)
    requires Quote !in path
    ensures Lex(QuotedPath(path), false) == Lift(path)
    ensures !QuotedAfter(QuotedPath(path), false)
  {
    if ' ' in path {
      LexAppend([Quote], path + [Quote], false);
      LexOne(Quote, false);
      LexAppend(path, [Quote], true);
      LexPlain(path, true);
      LexOne(Quote, true);
      assert [Quote] + path + [Quote] == [Quote] + (path + [Quote]);
      assert Lift(path) + [] == Lift(path);
    } else {
      LexPlain(path, false);
    }
  }

  /** A space followed by a plain word lexes to a separator and the word. */
  lemma SpaceWordLexes(w: string)
    requires Quote !in w && ' ' !in w
    ensures Lex([' '] + w, false) == [Sep] + Lift(w)
    ensures !QuotedAfter([' '] + w, false)
  {
    LexAppend([' '], w, false);
    LexOne(' ', false);
    LexPlain(w, false);
  }

  /** A quoted path followed by two plain words lexes to the three words joined by separators. */
  lemma ThreeArgumentsLex(path: string, sw: string, ph: string)
    requires Quote !in path
    requires Quote !in sw && ' ' !in sw && Quote !in ph && ' ' !in ph
    ensures Lex(QuotedPath(path) + ([' '] + sw + [' '] + ph), false) == Lift(path) + ([Sep] + Lift(sw) + ([Sep] + Lift(ph)))
  {
    var head, a, b := QuotedPath(path), [' '] + sw, [' '] + ph;
    assert [' '] + sw + [' '] + ph == a + b;
    QuotedPathLexes(path);
    SpaceWordLexes(sw);
    SpaceWordLexes(ph);
    LexAppend(a, b, false);
    LexAppend(head, a + b, false);
  }

  /** A quoted path followed by two plain words splits into exactly those three arguments. */
  lemma ThreeArgumentsSplit(path: string, sw: string, ph: string)
    requires Quote !in path
    requires Quote !in sw && ' ' !in sw && Quote !in ph && ' ' !in ph
    ensures SplitAt(Lex(QuotedPath(path) + ([' '] + sw + [' '] + ph), false)) == [path, sw, ph]
  {
    ThreeArgumentsLex(path, sw, ph);
    JoinThree(path, sw, ph);
    SplitJoin([path, sw, ph]);
  }

  /**
    Quote-then-split round trip: the default command splits back into the
    player path, the full-screen switch and the placeholder.
   */
  lemma StreamPlayerCommandSplits(path: string)
    requires Quote !in path
    ensures SplitAt(Lex(StreamPlayerCommand(path), false)) == [path, "--fullscreen", Placeholder]
  {
    var sw, ph := "--fullscreen", Placeholder;
    assert Quote !in sw && ' ' !in sw && Quote !in ph && ' ' !in ph;
    assert DefaultArguments == [' '] + sw + [' '] + ph;
    ThreeArgumentsSplit(path, sw, ph);
  }

  lemma JoinThree(a: string, b: string, c: string)
    ensures Join([a, b, c]) == Lift(a) + ([Sep] + Lift(b) + ([Sep] + Lift(c)))
  {
    var args := [a, b, c];
    assert args[..2] == [a, b];
    assert [a, b][..1] == [a];
    assert Join([a]) == Lift(a);
    assert Join([a, b]) == Lift(a) + [Sep] + Lift(b);
    assert Join(args) == Join([a, b]) + [Sep] + Lift(c);
  }

  /** What the probed command is built from: the default command after native separators. */
  method DefaultStreamPlayerCommand(present: string -> bool, windows: bool) returns (command: string)
    ensures command == StreamPlayerCommand(NativeSeparators(FirstInstalled(PlayerCandidates, present), windows))
  {
    var path := ChooseInstalledPlayer(present);
    path := NativeSeparators(path, windows);
    if ' ' in path {
      path := [Quote] + path + [Quote];
    }
    command := path + " --fullscreen %F";
  }

  lemma {:induction false} FirstInstalledAmong(candidates: seq<string>, present: string -> bool)
    ensures FirstInstalled(candidates, present) == FallbackPlayer || FirstInstalled(candidates, present) in candidates
  {
    if candidates != [] && !present(candidates[0]) {
      FirstInstalledAmong(candidates[1..], present);
    }
  }

  /** Every player path the default command can name is free of quotes, `%` and backslashes. */
  lemma FirstInstalledIsPlain(present: string -> bool)
    ensures var p := FirstInstalled(PlayerCandidates, present);
            Quote !in p && '%' !in p && '\\' !in p
  {
    FirstInstalledAmong(PlayerCandidates, present);
    CandidatesPlain();
  }

  lemma CandidatesPlain()
    ensures Quote !in VlcUnix && '%' !in VlcUnix && '\\' !in VlcUnix
    ensures Quote !in VlcWindows && '%' !in VlcWindows && '\\' !in VlcWindows
    ensures Quote !in VlcWindowsX86 && '%' !in VlcWindowsX86 && '\\' !in VlcWindowsX86
  {
    ProgramFilesPlain();
    VlcInstallPlain();
    assert Quote !in " (x86)" && '%' !in " (x86)" && '\\' !in " (x86)";
  }

  lemma ProgramFilesPlain() ensures Quote !in ProgramFiles && '%' !in ProgramFiles && '\\' !in ProgramFiles {}
  lemma VlcInstallPlain() ensures Quote !in VlcInstall && '%' !in VlcInstall && '\\' !in VlcInstall {}

  /** On Windows the native path gains backslashes but still no quote and no `%`. */
  lemma NativeKeepsPlain(path: string, windows: bool)
    requires Quote !in path && '%' !in path
    ensures Quote !in NativeSeparators(path, windows) && '%' !in NativeSeparators(path, windows)
  {
    var n := NativeSeparators(path, windows);
    forall i | 0 <= i < |n| ensures n[i] != Quote && n[i] != '%' {
      assert path[i] != Quote && path[i] != '%';
    }
  }

  /**
    The program and its arguments for a player command: split, substitute the
    placeholder with `value` in every argument, and take the first argument,
    with its separators made forward slashes, as the program.
   */
  method MediaPlayerInvocation(command: string, value: string, windows: bool)
    returns (program: string, arguments: seq<string>)
    ensures var args := SplitAt(Lex(command, false));
            && program == FromNativeSeparators(ReplaceAll(args[0], Placeholder, value), windows)
            && |arguments| == |args| - 1
            && forall i :: 0 <= i < |arguments| ==> arguments[i] == ReplaceAll(args[i + 1], Placeholder, value)
  {
    var args := SplitCommandLine(command);
    args := SubstitutePlaceholder(args, value);
    program := FromNativeSeparators(args[0], windows);
    arguments := args[1..];
  }

  /**
    The default command, split and substituted: the probed player (back in
    forward slashes), the full-screen switch and `value`.
   */
  lemma DefaultCommandArguments(present: string -> bool, windows: bool, value: string)
    ensures var found := FirstInstalled(PlayerCandidates, present);
            var args := SplitAt(Lex(StreamPlayerCommand(NativeSeparators(found, windows)), false));
            && |args| == 3
            && FromNativeSeparators(ReplaceAll(args[0], Placeholder, value), windows) == found
            && ReplaceAll(args[1], Placeholder, value) == "--fullscreen"
            && ReplaceAll(args[2], Placeholder, value) == value
  {
    var found := FirstInstalled(PlayerCandidates, present);
    var path := NativeSeparators(found, windows);
    FirstInstalledIsPlain(present);
    NativeKeepsPlain(found, windows);
    StreamPlayerCommandSplits(path);
    var args := SplitAt(Lex(StreamPlayerCommand(path), false));
    assert args[0] == path && args[1] == "--fullscreen" && args[2] == Placeholder;
    ReplaceAllNoPercent(path, value);
    ReplaceAllNoPercent("--fullscreen", value);
    ReplaceAllAtPlaceholder([], value);
    assert Placeholder + [] == Placeholder;
    SeparatorsRoundTrip(found, windows);
  }

  /**
    Starting a stream or a downloaded file: the configured command, or the
    default one when the setting is empty. With the default command the
    player found by probing is the program, whatever `value` holds, and its
    arguments are the full-screen switch and `value`.
   */
  method PlayerArguments(setting: string, present: string -> bool, windows: bool, value: string)
    returns (program: string, arguments: seq<string>)
    ensures setting == "" ==>
              program == FirstInstalled(PlayerCandidates, present) && arguments == ["--fullscreen", value]
    ensures setting != "" ==>
              var args := SplitAt(Lex(setting, false));
              && program == FromNativeSeparators(ReplaceAll(args[0], Placeholder, value), windows)
              && |arguments| == |args| - 1
              && forall i :: 0 <= i < |arguments| ==> arguments[i] == ReplaceAll(args[i + 1], Placeholder, value)
  {
    var command := setting;
    if command == "" {
      command := DefaultStreamPlayerCommand(present, windows);
      DefaultCommandArguments(present, windows, value);
    }
    program, arguments := MediaPlayerInvocation(command, value, windows);
    if setting == "" {
      assert arguments == [arguments[0], arguments[1]];
    }
  }
}
