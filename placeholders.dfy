/** The placeholder guard of `AutoTranslate`: `findVariables` collects the
    tokens of `/:\S+/` from the source string, and
    `replaceTranslatedVariablesWithOld` writes them back, by position, over the
    tokens of the same shape in the translated string. The regular expression
    is specified here directly over characters, as a scan that splits a string
    into single characters and maximal tokens. */
module Placeholders {
  import opened PhpArrays

  /** `\s` of PCRE without the `u` flag: space, tab, line feed, vertical tab,
      form feed and carriage return. */
  predicate IsSpace(c: char)
  {
    c == ' ' || c == '\t' || c == '\n' || c == '\U{0B}' || c == '\U{0C}' || c == '\r'
  }

  /** A match of `/:\S+/`: a colon followed by one or more non-space characters. */
  predicate IsToken(t: string)
  {
    |t| >= 2 && t[0] == ':' && forall i :: 1 <= i < |t| ==> !IsSpace(t[i])
  }

  /** A match of `/:\S+/` begins at the start of `s`. */
  predicate StartsToken(s: string)
  {
    |s| >= 2 && s[0] == ':' && !IsSpace(s[1])
  }

  /** The length of the longest prefix of `s` without whitespace (`\S+` is greedy). */
  function RunLength(s: string): (n: nat)
    ensures n <= |s|
  {
    if s == [] || IsSpace(s[0]) then 0 else 1 + RunLength(s[1..])
  }

  /** The run holds no whitespace and stops at whitespace or at the end. */
  lemma {:induction false} RunLengthMaximal(s: string)
    ensures forall i :: 0 <= i < RunLength(s) ==> !IsSpace(s[i])
    ensures RunLength(s) < |s| ==> IsSpace(s[RunLength(s)])
  {
    if s != [] && !IsSpace(s[0]) {
      RunLengthMaximal(s[1..]);
      forall i | 0 < i < RunLength(s) ensures !IsSpace(s[i]) {
        assert s[i] == s[1..][i - 1];
      }
    }
  }

  /** A string cut into the pieces the regular expression sees: characters it
      steps over, and the tokens it matches. */
  datatype Piece = Text(c: char) | Placeholder(token: string)

  /** The leftmost-longest scan of `/:\S+/`: at each position either a token
      starts, and runs to the next whitespace, or the character is skipped. */
  function Scan(s: string): seq<Piece>
    decreases |s|
  {
    if s == [] then []
    else if StartsToken(s) then
      var n := 1 + RunLength(s[1..]);
      [Placeholder(s[..n])] + Scan(s[n..])
    else [Text(s[0])] + Scan(s[1..])
  }

  function PieceText(p: Piece): string
  {
    match p
    case Text(c) => [c]
    case Placeholder(t) => t
  }

  /** The string a sequence of pieces spells. */
  function Concat(ps: seq<Piece>): string
  {
    if ps == [] then [] else PieceText(ps[0]) + Concat(ps[1..])
  }

  /** The tokens among the pieces, in order. */
  function TokensOf(ps: seq<Piece>): seq<string>
  {
    if ps == [] then []
    else (if ps[0].Placeholder? then [ps[0].token] else []) + TokensOf(ps[1..])
  }

  /** `findVariables` on a string: every match of `/:\S+/`, left to right,
      duplicates kept. */
  function FindVariables(s: string): (r: seq<string>)
    ensures forall i :: 0 <= i < |r| ==> IsToken(r[i])
  {
    ScanTokens(s);
    TokensOf(Scan(s))
  }

  /** The value `array_shift` hands out: the head of the queue, or null
      (the empty string once the callback's result is spliced in). */
  function Head(q: seq<string>): string
  {
    if q == [] then "" else q[0]
  }

  /** What `array_shift` leaves in the queue. */
  function Tail(q: seq<string>): seq<string>
  {
    if q == [] then [] else q[1..]
  }

  /** Replaces the k-th token with the k-th element of the queue, or with the
      empty string once the queue is exhausted; characters are kept. */
  function Subst(ps: seq<Piece>, q: seq<string>): seq<Piece>
  {
    if ps == [] then []
    else if ps[0].Text? then [ps[0]] + Subst(ps[1..], q)
    else [Placeholder(Head(q))] + Subst(ps[1..], Tail(q))
  }

  /** What `replaceTranslatedVariablesWithOld` makes of `text` with the queue `q`. */
  function Restore(q: seq<string>, text: string): string
  {
    Concat(Subst(Scan(text), q))
  }

  // ---------------------------------------------------------------------------
  // The scan, characterised

  /** A piece at `i` that the scan must close there: whatever follows it is
      whitespace or nothing. */
  predicate ClosedAt(ps: seq<Piece>, i: nat)
    requires i < |ps|
  {
    i + 1 == |ps| || (ps[i + 1].Text? && IsSpace(ps[i + 1].c))
  }

  /** The pieces a leftmost-longest scan could have produced: every token has
      the right shape and ends at whitespace or at the end, and no skipped
      colon could have started a token. */
  predicate WellLexed(ps: seq<Piece>)
  {
    forall i :: 0 <= i < |ps| ==>
      (ps[i].Placeholder? ==> IsToken(ps[i].token) && ClosedAt(ps, i)) &&
      (ps[i] == Text(':') ==> ClosedAt(ps, i))
  }

  lemma ScanTokens(s: string)
    ensures forall i :: 0 <= i < |TokensOf(Scan(s))| ==> IsToken(TokensOf(Scan(s))[i])
  {
    ScanWellLexed(s);
    WellLexedTokens(Scan(s));
  }

  lemma {:induction false} WellLexedTokens(ps: seq<Piece>)
    requires WellLexed(ps)
    ensures forall i :: 0 <= i < |TokensOf(ps)| ==> IsToken(TokensOf(ps)[i])
  {
    if ps != [] {
      WellLexedSuffix(ps);
      WellLexedTokens(ps[1..]);
      assert ps[0].Placeholder? ==> IsToken(ps[0].token);
    }
  }

  lemma WellLexedSuffix(ps: seq<Piece>)
    requires WellLexed(ps) && ps != []
    ensures WellLexed(ps[1..])
  {
    forall i | 0 <= i < |ps| - 1
      ensures (ps[1..][i].Placeholder? ==> IsToken(ps[1..][i].token) && ClosedAt(ps[1..], i))
      ensures (ps[1..][i] == Text(':') ==> ClosedAt(ps[1..], i))
    {
      assert ps[1..][i] == ps[i + 1];
      assert ClosedAt(ps, i + 1) ==> ClosedAt(ps[1..], i);
    }
  }

  /** The greedy run is determined by where the first whitespace is. */
  lemma {:induction false} RunLengthIs(s: string, n: nat)
    requires n <= |s|
    requires forall i :: 0 <= i < n ==> !IsSpace(s[i])
    requires n < |s| ==> IsSpace(s[n])
    ensures RunLength(s) == n
  {
    if n > 0 {
      RunLengthIs(s[1..], n - 1);
    }
  }

  lemma ConcatCons(p: Piece, rest: seq<Piece>)
    ensures Concat([p] + rest) == PieceText(p) + Concat(rest)
  {
    assert ([p] + rest)[1..] == rest;
  }

  /** The pieces spell the string they were cut from. */
  lemma {:induction false} ScanConcat(s: string)
    ensures Concat(Scan(s)) == s
    decreases |s|
  {
    if s != [] {
      if StartsToken(s) {
        var n := 1 + RunLength(s[1..]);
        ScanConcat(s[n..]);
        ScanConcatToken(s, n);
      } else {
        ScanConcat(s[1..]);
        ScanConcatText(s);
      }
    }
  }

  lemma SplitFirst<T>(xs: seq<T>)
    requires xs != []
    ensures xs == [xs[0]] + xs[1..]
  {
  }

  lemma SplitAt(s: string, n: nat)
    requires n <= |s|
    ensures s[..n] + s[n..] == s
  {
  }

  lemma ScanConcatToken(s: string, n: nat)
    requires StartsToken(s) && n == 1 + RunLength(s[1..])
    requires Concat(Scan(s[n..])) == s[n..]
    ensures Concat(Scan(s)) == s
  {
    var t, rest := s[..n], s[n..];
    assert Scan(s) == [Placeholder(t)] + Scan(rest);
    ConcatCons(Placeholder(t), Scan(rest));
    SplitAt(s, n);
  }

  lemma ScanConcatText(s: string)
    requires s != [] && !StartsToken(s)
    requires Concat(Scan(s[1..])) == s[1..]
    ensures Concat(Scan(s)) == s
  {
    ConcatCons(Text(s[0]), Scan(s[1..]));
    assert [s[0]] + s[1..] == s;
  }

  lemma {:induction false} ScanFirst(s: string)
    requires s != [] && IsSpace(s[0])
    ensures Scan(s) == [Text(s[0])] + Scan(s[1..])
  {
  }

  /** A piece in front of well-lexed pieces keeps them well lexed when it is
      closed by what follows, should it be a token or a colon. */
  lemma WellLexedCons(p: Piece, rest: seq<Piece>)
    requires WellLexed(rest)
    requires p.Placeholder? ==> IsToken(p.token)
    requires (p.Placeholder? || p == Text(':')) ==> rest == [] || (rest[0].Text? && IsSpace(rest[0].c))
    ensures WellLexed([p] + rest)
  {
    var ps := [p] + rest;
    forall i | 0 <= i < |ps|
      ensures (ps[i].Placeholder? ==> IsToken(ps[i].token) && ClosedAt(ps, i))
      ensures (ps[i] == Text(':') ==> ClosedAt(ps, i))
    {
      if i > 0 {
        assert ps[i] == rest[i - 1];
        assert ClosedAt(rest, i - 1) ==> ClosedAt(ps, i);
      }
    }
  }

  /** The scan takes maximal tokens and skips only colons that cannot start one. */
  lemma {:induction false} ScanWellLexed(s: string)
    ensures WellLexed(Scan(s))
    decreases |s|
  {
    if s != [] {
      if StartsToken(s) {
        var n := 1 + RunLength(s[1..]);
        var rest := s[n..];
        ScanWellLexed(rest);
        RunLengthMaximal(s[1..]);
        assert Scan(s) == [Placeholder(s[..n])] + Scan(rest);
        assert IsToken(s[..n]) by {
          forall i | 1 <= i < n ensures !IsSpace(s[..n][i]) {
            assert s[..n][i] == s[1..][i - 1];
          }
        }
        if rest != [] {
          assert rest[0] == s[1..][n - 1];
          ScanFirst(rest);
        }
        WellLexedCons(Placeholder(s[..n]), Scan(rest));
      } else {
        var rest := s[1..];
        ScanWellLexed(rest);
        assert Scan(s) == [Text(s[0])] + Scan(rest);
        if s[0] == ':' && rest != [] {
          assert IsSpace(rest[0]);
          ScanFirst(rest);
        }
        WellLexedCons(Text(s[0]), Scan(rest));
      }
    }
  }

  lemma ConcatText(ps: seq<Piece>)
    requires ps != [] && ps[0].Text?
    ensures Concat(ps) == [ps[0].c] + Concat(ps[1..])
  {
  }

  /** What follows a closed piece starts with the whitespace character after it. */
  lemma ClosedRest(ps: seq<Piece>)
    requires |ps| > 1 && ClosedAt(ps, 0)
    ensures Concat(ps[1..]) != [] && IsSpace(Concat(ps[1..])[0])
  {
    assert ps[1..][0] == ps[1];
    ConcatText(ps[1..]);
  }

  /** A skipped character in front of well-lexed pieces is skipped again. */
  lemma ScanOfText(ps: seq<Piece>)
    requires WellLexed(ps) && ps != [] && ps[0].Text?
    requires Scan(Concat(ps[1..])) == ps[1..]
    ensures Scan(Concat(ps)) == ps
  {
    var rest := Concat(ps[1..]);
    var s := Concat(ps);
    var c := ps[0].c;
    ConcatText(ps);
    assert !StartsToken(s) by {
      if c == ':' && |ps| > 1 {
        assert ClosedAt(ps, 0);
        ClosedRest(ps);
        assert s[1] == rest[0];
      }
    }
    assert s[1..] == rest;
    SplitFirst(ps);
  }

  /** A token in front of well-lexed pieces is matched again, up to the same whitespace. */
  lemma ScanOfPlaceholder(ps: seq<Piece>)
    requires WellLexed(ps) && ps != [] && ps[0].Placeholder?
    requires Scan(Concat(ps[1..])) == ps[1..]
    ensures Scan(Concat(ps)) == ps
  {
    var rest := Concat(ps[1..]);
    var t := ps[0].token;
    SplitFirst(ps);
    ConcatCons(ps[0], ps[1..]);
    assert IsToken(t) && ClosedAt(ps, 0);
    if |ps| > 1 {
      ClosedRest(ps);
    }
    ScanTokenThen(t, rest);
  }

  /** The scan is the only well-lexed way to cut a string: re-scanning what a
      well-lexed sequence of pieces spells gives the same pieces. */
  lemma {:induction false} ScanOfWellLexed(ps: seq<Piece>)
    requires WellLexed(ps)
    ensures Scan(Concat(ps)) == ps
  {
    if ps != [] {
      WellLexedSuffix(ps);
      ScanOfWellLexed(ps[1..]);
      if ps[0].Text? {
        ScanOfText(ps);
      } else {
        ScanOfPlaceholder(ps);
      }
    }
  }

  // ---------------------------------------------------------------------------
  // Restoring placeholders

  /** Handing a text its own tokens back changes nothing. */
  lemma {:induction false} SubstOwnTokens(ps: seq<Piece>)
    ensures Subst(ps, TokensOf(ps)) == ps
  {
    if ps != [] {
      SubstOwnTokens(ps[1..]);
      if ps[0].Placeholder? {
        assert TokensOf(ps) == [ps[0].token] + TokensOf(ps[1..]);
        assert Head(TokensOf(ps)) == ps[0].token;
        assert Tail(TokensOf(ps)) == TokensOf(ps[1..]);
      } else {
        assert TokensOf(ps) == TokensOf(ps[1..]);
      }
      assert ps == [ps[0]] + ps[1..];
    }
  }

  lemma RestoreOwnTokens(s: string)
    ensures Restore(FindVariables(s), s) == s
  {
    SubstOwnTokens(Scan(s));
    ScanConcat(s);
  }

  /** The queue left after the first piece is substituted. */
  function QueueAfter(p: Piece, q: seq<string>): seq<string>
  {
    if p.Placeholder? then Tail(q) else q
  }

  lemma SubstCons(ps: seq<Piece>, q: seq<string>)
    requires ps != []
    ensures Subst(ps, q) ==
      [if ps[0].Placeholder? then Placeholder(Head(q)) else ps[0]] + Subst(ps[1..], QueueAfter(ps[0], q))
  {
  }

  /** Position by position: characters stay, and the k-th token becomes the
      k-th queued value, or the empty string past the end of the queue. */
  lemma {:induction false} SubstAt(ps: seq<Piece>, q: seq<string>, i: nat)
    requires i < |ps|
    ensures |Subst(ps, q)| == |ps|
    ensures ps[i].Text? ==> Subst(ps, q)[i] == ps[i]
    ensures ps[i].Placeholder? ==>
      var k := |TokensOf(ps[..i])|;
      Subst(ps, q)[i] == Placeholder(if k < |q| then q[k] else "")
  {
    SubstLength(ps, q);
    SubstCons(ps, q);
    if i > 0 {
      var q' := QueueAfter(ps[0], q);
      SubstAt(ps[1..], q', i - 1);
      assert ps[1..][..i - 1] == ps[..i][1..];
      assert ps[..i][0] == ps[0];
      assert ps[1..][i - 1] == ps[i];
      assert Subst(ps, q)[i] == Subst(ps[1..], q')[i - 1];
      var k' := |TokensOf(ps[1..][..i - 1])|;
      assert |TokensOf(ps[..i])| == k' + (if ps[0].Placeholder? then 1 else 0);
    }
  }

  lemma {:induction false} SubstLength(ps: seq<Piece>, q: seq<string>)
    ensures |Subst(ps, q)| == |ps|
  {
    if ps != [] {
      SubstCons(ps, q);
      SubstLength(ps[1..], QueueAfter(ps[0], q));
    }
  }

  /** With enough well-shaped replacements the restored pieces are still well lexed,
      and their tokens are the first replacements. */
  lemma {:induction false} SubstWellLexed(ps: seq<Piece>, q: seq<string>)
    requires WellLexed(ps)
    requires |q| >= |TokensOf(ps)|
    requires forall i :: 0 <= i < |q| ==> IsToken(q[i])
    ensures WellLexed(Subst(ps, q))
    ensures TokensOf(Subst(ps, q)) == q[..|TokensOf(ps)|]
  {
    if ps != [] {
      WellLexedSuffix(ps);
      var q' := QueueAfter(ps[0], q);
      assert |q'| >= |TokensOf(ps[1..])|;
      SubstWellLexed(ps[1..], q');
      var r' := Subst(ps[1..], q');
      var p := if ps[0].Placeholder? then Placeholder(Head(q)) else ps[0];
      SubstCons(ps, q);
      assert Subst(ps, q) == [p] + r';
      SubstLength(ps[1..], q');
      if |ps| > 1 && ps[1].Text? {
        SubstCons(ps[1..], q');
        assert r'[0] == ps[1];
      }
      assert (ps[0].Placeholder? || ps[0] == Text(':')) ==> ClosedAt(ps, 0);
      WellLexedCons(p, r');
      if ps[0].Placeholder? {
        assert q[..|TokensOf(ps)|] == [q[0]] + q[1..][..|TokensOf(ps[1..])|];
      }
    }
  }

  /** The k-th token of the restored text is the k-th source token, whenever
      the source supplied enough tokens. */
  lemma RestoreTokens(q: seq<string>, text: string)
    requires forall i :: 0 <= i < |q| ==> IsToken(q[i])
    requires |q| >= |FindVariables(text)|
    ensures FindVariables(Restore(q, text)) == q[..|FindVariables(text)|]
  {
    ScanWellLexed(text);
    SubstWellLexed(Scan(text), q);
    ScanOfWellLexed(Subst(Scan(text), q));
  }

  // ---------------------------------------------------------------------------
  // replaceTranslatedVariablesWithOld

  /** What remains to be written from position `i` of `text` with the queue `q`. */
  function Pending(text: string, i: nat, q: seq<string>): string
    requires i <= |text|
  {
    Concat(Subst(Scan(text[i..]), q))
  }

  /** A token from `i` to `j` takes the head of the queue. */
  lemma PendingToken(text: string, i: nat, j: nat, q: seq<string>)
    requires i + 1 < |text| && text[i] == ':' && !IsSpace(text[i + 1])
    requires i + 1 <= j <= |text|
    requires forall k :: i + 1 <= k < j ==> !IsSpace(text[k])
    requires j < |text| ==> IsSpace(text[j])
    ensures Pending(text, i, q) == Head(q) + Pending(text, j, Tail(q))
  {
    var s := text[i..];
    assert s[1..] == text[i + 1..];
    RunLengthIs(s[1..], j - (i + 1));
    assert s[j - i..] == text[j..];
    var ps := Scan(s);
    assert ps == [Placeholder(s[..j - i])] + Scan(text[j..]);
    SubstCons(ps, q);
    assert ps[1..] == Scan(text[j..]);
  }

  /** A character that starts no token is copied. */
  lemma PendingChar(text: string, i: nat, q: seq<string>)
    requires i < |text|
    requires !(i + 1 < |text| && text[i] == ':' && !IsSpace(text[i + 1]))
    ensures Pending(text, i, q) == [text[i]] + Pending(text, i + 1, q)
  {
    var s := text[i..];
    assert s[1..] == text[i + 1..];
    assert !StartsToken(s);
    var ps := Scan(s);
    assert ps == [Text(text[i])] + Scan(text[i + 1..]);
    SubstCons(ps, q);
    assert ps[1..] == Scan(text[i + 1..]);
    ConcatText(Subst(ps, q));
  }

  /** Nothing is pending at the end of the text. */
  lemma PendingDone(out: string, text: string, q: seq<string>)
    ensures Pending(text, |text|, q) == []
    ensures out + Pending(text, |text|, q) == out
  {
    assert text[|text|..] == [];
  }

  lemma AppendAssoc(a: string, b: string, c: string)
    ensures a + (b + c) == (a + b) + c
  {
  }

  /** Where the greedy `\S+` that starts at `from` stops: the first whitespace
      at or after `from`, or the end of the text. */
  method MatchEnd(text: string, from: nat) returns (j: nat)
    requires from <= |text|
    ensures from <= j <= |text|
    ensures forall k :: from <= k < j ==> !IsSpace(text[k])
    ensures j < |text| ==> IsSpace(text[j])
  {
    j := from;
    while j < |text| && !IsSpace(text[j])
      invariant from <= j <= |text|
      invariant forall k :: from <= k < j ==> !IsSpace(text[k])
    {
      j := j + 1;
    }
  }

  /** `replaceTranslatedVariablesWithOld($variables, $string)`: `variables` is
      the match list of `findVariables` (null, here `None`, for a value that is
      not a string); each match of `/:\S+/` in `text` is replaced, left to
      right, by what `array_shift` takes off the queue of source tokens. With
      no match list the function falls off its end and returns null. */
  method ReplaceTranslatedVariablesWithOld(variables: Option<seq<string>>, text: string)
    returns (r: Option<string>)
    ensures variables.None? ==> r.None?
    ensures variables.Some? ==> r == Some(Restore(variables.value, text))
  {
    if variables.None? {
      return None;
    }
    var replacements := variables.value;
    var out := "";
    var i := 0;
    assert text[0..] == text;
    while i < |text|
      invariant 0 <= i <= |text|
      invariant out + Pending(text, i, replacements) == Restore(variables.value, text)
    {
      if i + 1 < |text| && text[i] == ':' && !IsSpace(text[i + 1]) {
        var j := MatchEnd(text, i + 1);
        PendingToken(text, i, j, replacements);
        AppendAssoc(out, Head(replacements), Pending(text, j, Tail(replacements)));
        out := out + Head(replacements);
        replacements := Tail(replacements);
        i := j;
      } else {
        PendingChar(text, i, replacements);
        AppendAssoc(out, [text[i]], Pending(text, i + 1, replacements));
        out := out + [text[i]];
        i := i + 1;
      }
    }
    PendingDone(out, text, replacements);
    r := Some(out);
  }

  // ---------------------------------------------------------------------------
  // Scanning concrete strings

  /** Each character of `a` as a skipped piece. */
  function Texts(a: string): (r: seq<Piece>)
    ensures |r| == |a|
  {
    seq(|a|, i requires 0 <= i < |a| => Text(a[i]))
  }

  /** Characters that are not colons start no token. */
  lemma {:induction false} ScanPlainPrefix(a: string, rest: string)
    requires ':' !in a
    ensures Scan(a + rest) == Texts(a) + Scan(rest)
  {
    if a != [] {
      assert (a + rest)[0] == a[0] && (a + rest)[1..] == a[1..] + rest;
      assert ':' !in a[1..] by {
        forall c | c in a[1..] ensures c != ':' { assert c in a; }
      }
      ScanPlainPrefix(a[1..], rest);
      assert Texts(a) == [Text(a[0])] + Texts(a[1..]);
    } else {
      assert a + rest == rest;
    }
  }

  /** A token followed by whitespace or nothing is matched whole. */
  lemma ScanTokenThen(t: string, rest: string)
    requires IsToken(t) && (rest != [] ==> IsSpace(rest[0]))
    ensures Scan(t + rest) == [Placeholder(t)] + Scan(rest)
  {
    var s := t + rest;
    var n := |t|;
    forall i | 0 <= i < n - 1 ensures !IsSpace(s[1..][i]) {
      assert s[1..][i] == t[i + 1];
    }
    if rest != [] {
      assert s[1..][n - 1] == rest[0];
    }
    RunLengthIs(s[1..], n - 1);
    assert s[..n] == t && s[n..] == rest;
  }

  lemma {:induction false} TextsFacts(a: string, q: seq<string>)
    ensures Concat(Texts(a)) == a
    ensures TokensOf(Texts(a)) == []
    ensures Subst(Texts(a), q) == Texts(a)
  {
    if a != [] {
      TextsFacts(a[1..], q);
      assert Texts(a)[1..] == Texts(a[1..]);
      assert a == [a[0]] + a[1..];
    }
  }

  lemma {:induction false} ConcatAppend(x: seq<Piece>, y: seq<Piece>)
    ensures Concat(x + y) == Concat(x) + Concat(y)
  {
    if x != [] {
      assert (x + y)[0] == x[0] && (x + y)[1..] == x[1..] + y;
      ConcatAppend(x[1..], y);
    } else {
      assert x + y == y;
    }
  }

  lemma {:induction false} TokensOfAppend(x: seq<Piece>, y: seq<Piece>)
    ensures TokensOf(x + y) == TokensOf(x) + TokensOf(y)
  {
    if x != [] {
      assert (x + y)[0] == x[0] && (x + y)[1..] == x[1..] + y;
      TokensOfAppend(x[1..], y);
    } else {
      assert x + y == y;
    }
  }

  lemma {:induction false} SubstTextsPrefix(a: string, y: seq<Piece>, q: seq<string>)
    ensures Subst(Texts(a) + y, q) == Texts(a) + Subst(y, q)
  {
    if a != [] {
      var x := Texts(a);
      assert (x + y)[0] == Text(a[0]) && (x + y)[1..] == Texts(a[1..]) + y;
      SubstTextsPrefix(a[1..], y, q);
      assert x == [Text(a[0])] + Texts(a[1..]);
    } else {
      assert Texts(a) + y == y;
    }
  }

  /** Text without a colon holds no token and is copied as it is. */
  lemma PlainText(c: string, q: seq<string>)
    requires ':' !in c
    ensures FindVariables(c) == []
    ensures Restore(q, c) == c
  {
    assert c + "" == c;
    ScanPlainPrefix(c, "");
    assert Texts(c) + [] == Texts(c);
    assert Scan(c) == Texts(c);
    TextsFacts(c, q);
  }

  /** Plain text, a token, then whatever follows from the next whitespace on. */
  lemma SegmentScan(a: string, t: string, rest: string)
    requires ':' !in a && IsToken(t)
    requires rest != [] ==> IsSpace(rest[0])
    ensures Scan(a + t + rest) == Texts(a) + ([Placeholder(t)] + Scan(rest))
  {
    ScanTokenThen(t, rest);
    assert a + t + rest == a + (t + rest);
    ScanPlainPrefix(a, t + rest);
  }

  /** Such a segment contributes its one token to `findVariables`. */
  lemma SegmentTokens(a: string, t: string, rest: string)
    requires ':' !in a && IsToken(t)
    requires rest != [] ==> IsSpace(rest[0])
    ensures FindVariables(a + t + rest) == [t] + FindVariables(rest)
  {
    SegmentScan(a, t, rest);
    TextsFacts(a, []);
    TokensOfAppend(Texts(a), [Placeholder(t)] + Scan(rest));
    TokensOfAppend([Placeholder(t)], Scan(rest));
  }

  /** Such a segment keeps its text and takes the head of the queue for its token. */
  lemma SegmentRestore(a: string, t: string, rest: string, q: seq<string>)
    requires ':' !in a && IsToken(t)
    requires rest != [] ==> IsSpace(rest[0])
    ensures Restore(q, a + t + rest) == a + Head(q) + Restore(Tail(q), rest)
  {
    SegmentScan(a, t, rest);
    var tail := [Placeholder(t)] + Scan(rest);
    SubstTextsPrefix(a, tail, q);
    SubstCons(tail, q);
    assert tail[1..] == Scan(rest);
    var restored := [Placeholder(Head(q))] + Subst(Scan(rest), Tail(q));
    assert Subst(tail, q) == restored;
    TextsFacts(a, q);
    ConcatAppend(Texts(a), restored);
    ConcatCons(Placeholder(Head(q)), Subst(Scan(rest), Tail(q)));
    AppendAssoc(a, Head(q), Restore(Tail(q), rest));
  }

  /** `findVariables("Hi :name, bye")` is `[":name,"]`: the token runs to the
      next whitespace, so the comma belongs to it. */
  lemma GreedyExample()
    ensures FindVariables("Hi " + ":name," + " bye") == [":name,"]
  {
    SegmentTokens("Hi ", ":name,", " bye");
    PlainText(" bye", []);
  }

  /** The source string "Hello :name" has the one token ":name". */
  lemma HelloTokens()
    ensures FindVariables("Hello " + ":name" + "") == [":name"]
  {
    SegmentTokens("Hello ", ":name", "");
    PlainText("", []);
  }

  /** The translation "Bonjour :X" gets the source token back in place of its own. */
  lemma BonjourRestore()
    ensures Restore([":name"], "Bonjour " + ":X" + "") == "Bonjour " + ":name" + ""
  {
    SegmentRestore("Bonjour ", ":X", "", [":name"]);
    PlainText("", []);
  }

  /** Two tokens in plain text, separated by text that starts with whitespace:
      `findVariables` lists both, and restoring puts the first two queued
      values in their places. */
  lemma TwoSegments(a: string, t1: string, b: string, t2: string, c: string, q: seq<string>)
    requires ':' !in a && ':' !in b && ':' !in c && IsToken(t1) && IsToken(t2)
    requires b != [] && IsSpace(b[0]) && (c != [] ==> IsSpace(c[0]))
    ensures FindVariables(a + t1 + (b + t2 + c)) == [t1, t2]
    ensures Restore(q, a + t1 + (b + t2 + c)) == a + Head(q) + (b + Head(Tail(q)) + c)
  {
    SegmentTokens(a, t1, b + t2 + c);
    SegmentTokens(b, t2, c);
    PlainText(c, Tail(Tail(q)));
    SegmentRestore(a, t1, b + t2 + c, q);
    SegmentRestore(b, t2, c, Tail(q));
  }

  /** "Hello :name, you have :count items": two tokens, the first with its comma. */
  lemma FidelityTokens()
    ensures FindVariables("Hello " + ":name," + (" you have " + ":count" + " items")) == [":name,", ":count"]
  {
    TwoSegments("Hello ", ":name,", " you have ", ":count", " items", []);
  }

  /** Restoring those two tokens into "Bonjour :X, vous avez :Y articles"
      replaces ":X," and ":Y" in order; the comma comes back with the token. */
  lemma FidelityRestore()
    ensures Restore([":name,", ":count"], "Bonjour " + ":X," + (" vous avez " + ":Y" + " articles")) ==
      "Bonjour " + ":name," + (" vous avez " + ":count" + " articles")
  {
    var q := [":name,", ":count"];
    TwoSegments("Bonjour ", ":X,", " vous avez ", ":Y", " articles", q);
    assert Head(q) == ":name," && Head(Tail(q)) == ":count";
  }

  /** Handing in ":name" without its comma, the comma of ":X," is lost: the
      whole match is replaced. */
  lemma FidelityWithoutComma()
    ensures Restore([":name", ":count"], "Bonjour " + ":X," + (" vous avez " + ":Y" + " articles")) ==
      "Bonjour " + ":name" + (" vous avez " + ":count" + " articles")
  {
    var q := [":name", ":count"];
    TwoSegments("Bonjour ", ":X,", " vous avez ", ":Y", " articles", q);
    assert Head(q) == ":name" && Head(Tail(q)) == ":count";
  }
}
