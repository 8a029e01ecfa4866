/** The named-parameter rewriter of NamedParameterStatement.parseSql: one
    left-to-right pass that turns every `:name` token into a positional `?`
    and records, per name, the 1-based positions of its placeholders.

    `Parse` follows the Java loop step by step.  `Tokens` is an independent,
    compositional reading of the same text: the input split into literal
    characters, dropped colons and parameter tokens.  `ParseIsTokenRewrite`
    connects the two, and the remaining lemmas state what the rewrite does. */
module SqlParser {
  import opened Identifiers
  import opened Positions

  /** The rewritten positional SQL and its name-to-positions index. */
  datatype Parsed = Parsed(sql: string, positions: PositionMap)

  /* ---------------- The scan, as the Java loop performs it ---------------- */

  /** Index just past the run of identifier-part characters that starts at `k`
      (the inner `while` loop over `j`). */
  function IdentEnd(s: string, k: nat): (j: nat)
    requires k <= |s|
    ensures k <= j <= |s|
    ensures forall x :: k <= x < j ==> IsIdentPart(s[x])
    ensures j == |s| || !IsIdentPart(s[j])
    decreases |s| - k
  {
    if k < |s| && IsIdentPart(s[k]) then IdentEnd(s, k + 1) else k
  }

  /** The `for` loop from position `i` on, with the text emitted so far, the
      index built so far and the next placeholder number `col`.  After a
      parameter the Java code advances `i` by the name's length and then by
      one, so scanning resumes at the end of the name. */
  function Scan(s: string, i: nat, out: string, m: PositionMap, col: nat): (r: Parsed)
    requires i <= |s|
    ensures |r.sql| <= |out| + (|s| - i)
    decreases |s| - i
  {
    if i == |s| then Parsed(out, m)
    else if s[i] == ':' && i + 1 < |s| then
      if IsIdentStart(s[i + 1]) then
        var j := IdentEnd(s, i + 1);
        var name := s[i + 1..j];
        Scan(s, j, out + "?", Record(m, name, col), col + 1)
      else
        // the Java code has no `else` here: the colon is neither copied nor replaced
        Scan(s, i + 1, out, m, col)
    else
      Scan(s, i + 1, out + [s[i]], m, col)
  }

  /** parseSql: the rewritten text is never longer than the input. */
  function Parse(s: string): (r: Parsed)
    ensures |r.sql| <= |s|
  {
    Scan(s, 0, "", map[], 1)
  }

  /** The Java loop itself, with its mutable builder, map and counters. */
  method ParseSql(sql: string) returns (parsedSql: string, positions: PositionMap)
    ensures Parsed(parsedSql, positions) == Parse(sql)
  {
    var length := |sql|;
    parsedSql := "";
    positions := map[];
    var columnIndex := 1;
    var i := 0;
    while i < length
      invariant 0 <= i <= length
      invariant Scan(sql, i, parsedSql, positions, columnIndex) == Parse(sql)
    {
      var currChar := sql[i];
      var nextIndex := i + 1;
      if currChar == ':' && nextIndex < length {
        var nextChar := sql[nextIndex];
        if IsIdentStart(nextChar) {
          var j := nextIndex;
          while j < length && IsIdentPart(sql[j])
            invariant nextIndex <= j <= length
            invariant IdentEnd(sql, j) == IdentEnd(sql, nextIndex)
          {
            j := j + 1;
          }
          var name := sql[i + 1..j];
          i := i + |name|;
          parsedSql := parsedSql + "?";
          var columnIndexes := if name in positions then positions[name] else [];
          columnIndexes := columnIndexes + [columnIndex];
          positions := positions[name := columnIndexes];
          columnIndex := columnIndex + 1;
        }
      } else {
        parsedSql := parsedSql + [currChar];
      }
      i := i + 1;
    }
  }

  /** A stretch without colons is copied to the output verbatim. */
  lemma {:induction false} ScanCopiesPlainText(s: string, i: nat, k: nat, out: string, m: PositionMap, col: nat)
    requires i <= k <= |s|
    requires ':' !in s[i..k]
    ensures Scan(s, i, out, m, col) == Scan(s, k, out + s[i..k], m, col)
    decreases k - i
  {
    if i == k {
      assert out + s[i..k] == out;
    } else {
      assert s[i] == s[i..k][0];
      assert s[i + 1..k] == s[i..k][1..];
      ScanCopiesPlainText(s, i + 1, k, out + [s[i]], m, col);
      assert out + [s[i]] + s[i + 1..k] == out + s[i..k];
    }
  }

  lemma {:induction false} IdentEndOfName(s: string, k: nat, n: string)
    requires k + |n| <= |s| && s[k..k + |n|] == n
    requires forall x :: 0 <= x < |n| ==> IsIdentPart(n[x])
    requires k + |n| == |s| || !IsIdentPart(s[k + |n|])
    ensures IdentEnd(s, k) == k + |n|
    decreases |n|
  {
    if n != [] {
      assert s[k] == n[0];
      assert s[k + 1..k + |n|] == n[1..];
      IdentEndOfName(s, k + 1, n[1..]);
    }
  }

  /** A maximal `:name` token is replaced by one `?`, and `name` gets the
      next placeholder number. */
  lemma ScanReplacesParameter(s: string, i: nat, n: string, out: string, m: PositionMap, col: nat)
    requires i + 1 + |n| <= |s| && s[i..i + 1 + |n|] == ":" + n
    requires ValidName(n)
    requires i + 1 + |n| == |s| || !IsIdentPart(s[i + 1 + |n|])
    ensures Scan(s, i, out, m, col) == Scan(s, i + 1 + |n|, out + "?", Record(m, n, col), col + 1)
  {
    assert s[i] == ':' && s[i + 1] == n[0];
    assert s[i + 1..i + 1 + |n|] == n;
    IdentEndOfName(s, i + 1, n);
  }

  /* ---------------- The same text, read as a token sequence ---------------- */

  /** A piece of the input: a character copied as is, a colon the rewriter
      drops, or a `:name` parameter. */
  datatype Token = Copy(c: char) | Drop | Param(name: string)

  /** The input text a token spans. */
  function Lexeme(t: Token): string {
    match t
    case Copy(c) => [c]
    case Drop => ":"
    case Param(n) => ":" + n
  }

  /** What the rewriter writes for a token. */
  function Emitted(t: Token): string {
    match t
    case Copy(c) => [c]
    case Drop => ""
    case Param(_) => "?"
  }

  /** First character of a token's lexeme. */
  function Lead(t: Token): char {
    match t
    case Copy(c) => c
    case _ => ':'
  }

  function Source(ts: seq<Token>): string {
    if ts == [] then "" else Lexeme(ts[0]) + Source(ts[1..])
  }

  function Text(ts: seq<Token>): string {
    if ts == [] then "" else Emitted(ts[0]) + Text(ts[1..])
  }

  /** The parameter names in order of occurrence. */
  function Names(ts: seq<Token>): seq<string> {
    if ts == [] then []
    else (if ts[0].Param? then [ts[0].name] else []) + Names(ts[1..])
  }

  /** The longest prefix of `t` made of identifier-part characters. */
  function IdentRun(t: string): (n: string)
    ensures |n| <= |t| && n == t[..|n|]
    ensures forall k :: 0 <= k < |n| ==> IsIdentPart(n[k])
    ensures |n| == |t| || !IsIdentPart(t[|n|])
  {
    if t != [] && IsIdentPart(t[0]) then [t[0]] + IdentRun(t[1..]) else []
  }

  /** The token reading of a text: a colon followed by an identifier start
      opens a parameter that runs as far as identifier-part characters go; a
      colon followed by anything else is dropped; every other character,
      including a colon in the last position, is copied. */
  function Tokens(s: string): seq<Token>
    decreases |s|
  {
    if s == [] then []
    else if s[0] == ':' && |s| > 1 then
      if IsIdentStart(s[1]) then
        var n := IdentRun(s[1..]);
        [Param(n)] + Tokens(s[1 + |n|..])
      else
        [Drop] + Tokens(s[1..])
    else
      [Copy(s[0])] + Tokens(s[1..])
  }

  /** A token fits in front of the tokens `rest` that follow it. */
  predicate Fits(t: Token, rest: seq<Token>) {
    match t
    case Copy(c) => c != ':' || rest == []
    case Drop => rest != [] && !IsIdentStart(Lead(rest[0]))
    case Param(n) => ValidName(n) && (rest == [] || !IsIdentPart(Lead(rest[0])))
  }

  /** Every token fits: copied colons only at the very end, dropped colons
      only before a non-start character, parameter names valid and maximal. */
  predicate WellFormed(ts: seq<Token>)
    decreases |ts|
  {
    ts == [] || (Fits(ts[0], ts[1..]) && WellFormed(ts[1..]))
  }

  /* ---------------- Lemmas ---------------- */

  lemma {:induction false} IdentRunIsIdentEnd(s: string, k: nat)
    requires k <= |s|
    ensures IdentRun(s[k..]) == s[k..IdentEnd(s, k)]
    decreases |s| - k
  {
    if k < |s| && IsIdentPart(s[k]) {
      IdentRunIsIdentEnd(s, k + 1);
      assert s[k..][1..] == s[k + 1..];
      assert s[k..IdentEnd(s, k)] == [s[k]] + s[k + 1..IdentEnd(s, k)];
    }
  }

  /** One step of `Tokens` on a suffix of the text, in terms of the indices
      the scan uses. */
  lemma TokensStep(s: string, i: nat)
    requires i < |s|
    ensures s[i] == ':' && i + 1 < |s| && IsIdentStart(s[i + 1]) ==>
      Tokens(s[i..]) == [Param(s[i + 1..IdentEnd(s, i + 1)])] + Tokens(s[IdentEnd(s, i + 1)..])
    ensures s[i] == ':' && i + 1 < |s| && !IsIdentStart(s[i + 1]) ==>
      Tokens(s[i..]) == [Drop] + Tokens(s[i + 1..])
    ensures !(s[i] == ':' && i + 1 < |s|) ==>
      Tokens(s[i..]) == [Copy(s[i])] + Tokens(s[i + 1..])
  {
    var u := s[i..];
    assert u[1..] == s[i + 1..];
    if s[i] == ':' && i + 1 < |s| && IsIdentStart(s[i + 1]) {
      IdentRunIsIdentEnd(s, i + 1);
      var n := IdentRun(u[1..]);
      assert u[1 + |n|..] == s[IdentEnd(s, i + 1)..];
    }
  }

  lemma Cons(t: Token, tail: seq<Token>)
    ensures Text([t] + tail) == Emitted(t) + Text(tail)
    ensures Names([t] + tail) == (if t.Param? then [t.name] else []) + Names(tail)
  {
    assert ([t] + tail)[1..] == tail;
  }

  /** The rewrite the scan performs from position `i` on. */
  ghost predicate ScanRewrites(s: string, i: nat, out: string, m: PositionMap, col: nat)
    requires i <= |s|
  {
    Scan(s, i, out, m, col) == Parsed(out + Text(Tokens(s[i..])), Extend(m, Names(Tokens(s[i..])), col))
  }

  lemma ParamTokens(s: string, i: nat)
    requires i + 1 < |s| && s[i] == ':' && IsIdentStart(s[i + 1])
    ensures Text(Tokens(s[i..])) == "?" + Text(Tokens(s[IdentEnd(s, i + 1)..]))
    ensures Names(Tokens(s[i..])) == [s[i + 1..IdentEnd(s, i + 1)]] + Names(Tokens(s[IdentEnd(s, i + 1)..]))
  {
    TokensStep(s, i);
    Cons(Param(s[i + 1..IdentEnd(s, i + 1)]), Tokens(s[IdentEnd(s, i + 1)..]));
  }

  lemma ExtendCons(m: PositionMap, name: string, ns: seq<string>, col: nat)
    ensures Extend(m, [name] + ns, col) == Extend(Record(m, name, col), ns, col + 1)
  {
    assert ([name] + ns)[0] == name && ([name] + ns)[1..] == ns;
  }

  lemma ScanParam(s: string, i: nat, out: string, m: PositionMap, col: nat)
    requires i + 1 < |s| && s[i] == ':' && IsIdentStart(s[i + 1])
    ensures Scan(s, i, out, m, col)
         == Scan(s, IdentEnd(s, i + 1), out + "?", Record(m, s[i + 1..IdentEnd(s, i + 1)], col), col + 1)
  {
  }

  lemma ParamStep(s: string, i: nat, out: string, m: PositionMap, col: nat)
    requires i + 1 < |s| && s[i] == ':' && IsIdentStart(s[i + 1])
    requires ScanRewrites(s, IdentEnd(s, i + 1), out + "?", Record(m, s[i + 1..IdentEnd(s, i + 1)], col), col + 1)
    ensures ScanRewrites(s, i, out, m, col)
  {
    var j := IdentEnd(s, i + 1);
    var name := s[i + 1..j];
    var tail := Tokens(s[j..]);
    ScanParam(s, i, out, m, col);
    ParamTokens(s, i);
    ExtendCons(m, name, Names(tail), col);
    assert out + "?" + Text(tail) == out + ("?" + Text(tail));
  }

  lemma DropStep(s: string, i: nat, out: string, m: PositionMap, col: nat)
    requires i + 1 < |s| && s[i] == ':' && !IsIdentStart(s[i + 1])
    requires ScanRewrites(s, i + 1, out, m, col)
    ensures ScanRewrites(s, i, out, m, col)
  {
    TokensStep(s, i);
    Cons(Drop, Tokens(s[i + 1..]));
    assert [] + Names(Tokens(s[i + 1..])) == Names(Tokens(s[i + 1..]));
    assert "" + Text(Tokens(s[i + 1..])) == Text(Tokens(s[i + 1..]));
  }

  lemma CopyStep(s: string, i: nat, out: string, m: PositionMap, col: nat)
    requires i < |s| && !(s[i] == ':' && i + 1 < |s|)
    requires ScanRewrites(s, i + 1, out + [s[i]], m, col)
    ensures ScanRewrites(s, i, out, m, col)
  {
    var tail := Tokens(s[i + 1..]);
    TokensStep(s, i);
    Cons(Copy(s[i]), tail);
    assert [] + Names(tail) == Names(tail);
    assert out + [s[i]] + Text(tail) == out + ([s[i]] + Text(tail));
  }

  /** The scan from `i` emits the text of the remaining tokens and records
      their names after the ones recorded so far. */
  lemma {:induction false} ScanIsTokenRewrite(s: string, i: nat, out: string, m: PositionMap, col: nat)
    requires i <= |s|
    ensures ScanRewrites(s, i, out, m, col)
    decreases |s| - i
  {
    if i == |s| {
      assert s[i..] == [];
    } else if s[i] == ':' && i + 1 < |s| {
      if IsIdentStart(s[i + 1]) {
        var j := IdentEnd(s, i + 1);
        ScanIsTokenRewrite(s, j, out + "?", Record(m, s[i + 1..j], col), col + 1);
        ParamStep(s, i, out, m, col);
      } else {
        ScanIsTokenRewrite(s, i + 1, out, m, col);
        DropStep(s, i, out, m, col);
      }
    } else {
      ScanIsTokenRewrite(s, i + 1, out + [s[i]], m, col);
      CopyStep(s, i, out, m, col);
    }
  }

  /** parseSql is the token rewrite: the output is the emitted text of the
      tokens, and the index records the parameter names in order. */
  lemma ParseIsTokenRewrite(s: string)
    ensures Parse(s) == Parsed(Text(Tokens(s)), Index(Names(Tokens(s))))
  {
    ScanIsTokenRewrite(s, 0, "", map[], 1);
    assert s[0..] == s;
    var ts := Tokens(s);
    var ns := Names(ts);
    assert "" + Text(ts) == Text(ts);
    assert Parse(s) == Parsed(Text(ts), Extend(map[], ns, 1));
    ExtendIndex([], ns);
    assert Index([]) == map[];
    assert [] + ns == ns;
  }

  /** Concatenating the tokens' lexemes gives back the input: no character
      is lost or invented by the token reading. */
  lemma {:induction false} SourceOfTokens(s: string)
    ensures Source(Tokens(s)) == s
    decreases |s|
  {
    if s != [] {
      if s[0] == ':' && |s| > 1 {
        if IsIdentStart(s[1]) {
          var n := IdentRun(s[1..]);
          SourceOfTokens(s[1 + |n|..]);
          assert ([Param(n)] + Tokens(s[1 + |n|..]))[1..] == Tokens(s[1 + |n|..]);
          assert s == ":" + s[1..][..|n|] + s[1 + |n|..];
        } else {
          SourceOfTokens(s[1..]);
          assert ([Drop] + Tokens(s[1..]))[1..] == Tokens(s[1..]);
          assert s == ":" + s[1..];
        }
      } else {
        SourceOfTokens(s[1..]);
        assert ([Copy(s[0])] + Tokens(s[1..]))[1..] == Tokens(s[1..]);
        assert s == [s[0]] + s[1..];
      }
    }
  }

  /** The first token of a non-empty text starts with the text's first character. */
  lemma LeadOfTokens(s: string)
    requires s != []
    ensures Tokens(s) != [] && Lead(Tokens(s)[0]) == s[0]
  {
  }

  /** The token reading always satisfies the well-formedness rules. */
  lemma {:induction false} TokensWellFormed(s: string)
    ensures WellFormed(Tokens(s))
    decreases |s|
  {
    if s != [] {
      if s[0] == ':' && |s| > 1 {
        if IsIdentStart(s[1]) {
          var n := IdentRun(s[1..]);
          var tail := s[1 + |n|..];
          TokensWellFormed(tail);
          if tail != [] {
            LeadOfTokens(tail);
            assert tail[0] == s[1..][|n|];
          }
          assert ([Param(n)] + Tokens(tail))[1..] == Tokens(tail);
        } else {
          TokensWellFormed(s[1..]);
          LeadOfTokens(s[1..]);
          assert ([Drop] + Tokens(s[1..]))[1..] == Tokens(s[1..]);
        }
      } else {
        TokensWellFormed(s[1..]);
        assert ([Copy(s[0])] + Tokens(s[1..]))[1..] == Tokens(s[1..]);
      }
    }
  }

  lemma {:induction false} SourceNonEmpty(ts: seq<Token>)
    requires ts != []
    ensures Source(ts) != [] && Source(ts)[0] == Lead(ts[0])
  {
  }

  /** A maximal run of identifier-part characters is what IdentRun finds. */
  lemma {:induction false} IdentRunOfMaximal(n: string, u: string)
    requires forall k :: 0 <= k < |n| ==> IsIdentPart(n[k])
    requires u == [] || !IsIdentPart(u[0])
    ensures IdentRun(n + u) == n
    decreases |n|
  {
    if n != [] {
      IdentRunOfMaximal(n[1..], u);
      assert (n + u)[1..] == n[1..] + u;
      assert n == [n[0]] + n[1..];
    } else {
      assert n + u == u;
    }
  }

  lemma SourceCons(t: Token, rest: seq<Token>)
    ensures Source([t] + rest) == Lexeme(t) + Source(rest)
  {
    assert ([t] + rest)[1..] == rest;
  }

  /* Reading one token off the front of a text, for each kind of token. */

  lemma TokensOfCopy(c: char, tail: string)
    requires c != ':' || tail == []
    ensures Tokens([c] + tail) == [Copy(c)] + Tokens(tail)
  {
    assert ([c] + tail)[1..] == tail;
  }

  lemma TokensOfDrop(tail: string)
    requires tail != [] && !IsIdentStart(tail[0])
    ensures Tokens(":" + tail) == [Drop] + Tokens(tail)
  {
    assert (":" + tail)[1..] == tail;
  }

  lemma TokensParam(s: string)
    requires |s| > 1 && s[0] == ':' && IsIdentStart(s[1])
    ensures Tokens(s) == [Param(IdentRun(s[1..]))] + Tokens(s[1 + |IdentRun(s[1..])|..])
  {
  }

  lemma TokensOfParam(n: string, tail: string)
    requires ValidName(n) && (tail == [] || !IsIdentPart(tail[0]))
    ensures Tokens(":" + n + tail) == [Param(n)] + Tokens(tail)
  {
    var s := ":" + n + tail;
    assert s[1..] == n + tail;
    IdentRunOfMaximal(n, tail);
    assert s[1 + |n|..] == tail;
    assert s[1] == n[0];
    TokensParam(s);
  }

  /** Each character of `a`, copied. */
  function Copies(a: string): (ts: seq<Token>)
    ensures |ts| == |a|
  {
    if a == [] then [] else [Copy(a[0])] + Copies(a[1..])
  }

  /** A colon-free text is read as copied characters whatever follows it. */
  lemma {:induction false} TokensOfPlain(a: string, tail: string)
    requires ':' !in a
    ensures Tokens(a + tail) == Copies(a) + Tokens(tail)
    decreases |a|
  {
    if a != [] {
      assert ':' !in a[1..] by {
        forall x | x in a[1..] ensures x != ':' { assert x in a; }
      }
      TokensOfPlain(a[1..], tail);
      assert a + tail == [a[0]] + (a[1..] + tail);
      TokensOfCopy(a[0], a[1..] + tail);
    } else {
      assert a + tail == tail;
    }
  }

  lemma {:induction false} TextAppend(xs: seq<Token>, ys: seq<Token>)
    ensures Text(xs + ys) == Text(xs) + Text(ys)
    decreases |xs|
  {
    if xs == [] {
      assert xs + ys == ys;
    } else {
      TextAppend(xs[1..], ys);
      assert (xs + ys)[1..] == xs[1..] + ys;
      assert Text(xs + ys) == Emitted(xs[0]) + Text(xs[1..] + ys);
    }
  }

  lemma {:induction false} NamesAppend(xs: seq<Token>, ys: seq<Token>)
    ensures Names(xs + ys) == Names(xs) + Names(ys)
    decreases |xs|
  {
    if xs == [] {
      assert xs + ys == ys;
    } else {
      NamesAppend(xs[1..], ys);
      assert (xs + ys)[1..] == xs[1..] + ys;
      assert Names(xs + ys) == (if xs[0].Param? then [xs[0].name] else []) + Names(xs[1..] + ys);
    }
  }

  lemma {:induction false} TextOfCopies(a: string)
    ensures Text(Copies(a)) == a && Names(Copies(a)) == []
    decreases |a|
  {
    if a != [] {
      TextOfCopies(a[1..]);
      Cons(Copy(a[0]), Copies(a[1..]));
      assert a == [a[0]] + a[1..];
    }
  }

  /** A colon-free piece in front of a text is emitted unchanged and records nothing. */
  lemma RewritePlain(a: string, tail: string)
    requires ':' !in a
    ensures Text(Tokens(a + tail)) == a + Text(Tokens(tail))
    ensures Names(Tokens(a + tail)) == Names(Tokens(tail))
  {
    TokensOfPlain(a, tail);
    TextAppend(Copies(a), Tokens(tail));
    NamesAppend(Copies(a), Tokens(tail));
    TextOfCopies(a);
    assert [] + Names(Tokens(tail)) == Names(Tokens(tail));
  }

  /** A maximal `:name` in front of a text is emitted as one `?` and records `name`. */
  lemma RewriteParam(n: string, tail: string)
    requires ValidName(n) && (tail == [] || !IsIdentPart(tail[0]))
    ensures Text(Tokens(":" + n + tail)) == "?" + Text(Tokens(tail))
    ensures Names(Tokens(":" + n + tail)) == [n] + Names(Tokens(tail))
  {
    TokensOfParam(n, tail);
    Cons(Param(n), Tokens(tail));
  }

  /** The well-formed token sequence of a text is unique, so the rules of
      `WellFormed` together with `Source` pin the token reading down. */
  lemma {:induction false} TokensUnique(ts: seq<Token>, s: string)
    requires WellFormed(ts) && Source(ts) == s
    ensures ts == Tokens(s)
    decreases |ts|
  {
    if ts != [] {
      var t, rest := ts[0], ts[1..];
      assert ts == [t] + rest;
      var tail := Source(rest);
      SourceCons(t, rest);
      TokensUnique(rest, tail);
      if rest != [] {
        SourceNonEmpty(rest);
      }
      match t
      case Copy(c) => TokensOfCopy(c, tail);
      case Drop => TokensOfDrop(tail);
      case Param(n) => TokensOfParam(n, tail);
    }
  }

  /** A text with no colon is returned unchanged, and no parameter is recorded. */
  lemma {:induction false} NoColonTokens(s: string)
    requires ':' !in s
    ensures Text(Tokens(s)) == s && Names(Tokens(s)) == []
    decreases |s|
  {
    if s != [] {
      assert ':' !in s[1..] by {
        forall k | 0 <= k < |s[1..]|
          ensures s[1..][k] != ':'
        {
          assert s[1..][k] == s[k + 1];
        }
      }
      NoColonTokens(s[1..]);
      assert Tokens(s) == [Copy(s[0])] + Tokens(s[1..]);
      assert s == [s[0]] + s[1..];
    }
  }

  /** parseSql leaves colon-free SQL untouched and records no parameter. */
  lemma NoColonUnchanged(s: string)
    requires ':' !in s
    ensures Parse(s) == Parsed(s, map[])
  {
    ParseIsTokenRewrite(s);
    NoColonTokens(s);
  }

  /** The index of a parse: with `ns` the parameter names in order and
      k = |ns|, every recorded name is a valid identifier that occurs, each
      position 1..k belongs to exactly one name, and each name's list is
      non-empty and increasing. */
  lemma ParsePositions(s: string)
    ensures var ns := Names(Tokens(s));
      && (forall n :: n in Parse(s).positions <==> n in ns)
      && (forall n :: n in Parse(s).positions ==> ValidName(n))
      && (forall k :: 0 <= k < |ns| ==> ns[k] in Parse(s).positions && k + 1 in Parse(s).positions[ns[k]])
      && (forall n, p :: n in Parse(s).positions && p in Parse(s).positions[n] <==> n in Parse(s).positions && 1 <= p <= |ns| && ns[p - 1] == n)
      && Disjoint(Parse(s).positions)
      && (forall n :: n in Parse(s).positions ==> |Parse(s).positions[n]| > 0 && StrictlyIncreasing(Parse(s).positions[n]))
  {
    ParseIsTokenRewrite(s);
    TokensWellFormed(s);
    IndexSpec(Names(Tokens(s)));
    IndexPartitions(Names(Tokens(s)));
    NamesValid(Tokens(s));
  }

  lemma {:induction false} NamesValid(ts: seq<Token>)
    requires WellFormed(ts)
    ensures forall n :: n in Names(ts) ==> ValidName(n)
    decreases |ts|
  {
    if ts != [] {
      NamesValid(ts[1..]);
    }
  }

  /** Number of occurrences of `c` in `s`. */
  function Count(c: char, s: string): nat {
    if s == [] then 0 else (if s[0] == c then 1 else 0) + Count(c, s[1..])
  }

  lemma {:induction false} CountAppend(c: char, a: string, b: string)
    ensures Count(c, a + b) == Count(c, a) + Count(c, b)
    decreases |a|
  {
    if a == [] {
      assert a + b == b;
    } else {
      CountAppend(c, a[1..], b);
      assert (a + b)[1..] == a[1..] + b;
    }
  }

  lemma {:induction false} CountQuestionMarks(ts: seq<Token>)
    requires WellFormed(ts)
    ensures Count('?', Text(ts)) == Count('?', Source(ts)) + |Names(ts)|
    decreases |ts|
  {
    if ts != [] {
      CountQuestionMarks(ts[1..]);
      CountAppend('?', Emitted(ts[0]), Text(ts[1..]));
      CountAppend('?', Lexeme(ts[0]), Source(ts[1..]));
      if ts[0].Param? {
        NameHasNoQuestionMark(ts[0].name);
      }
    }
  }

  lemma {:induction false} NameHasNoQuestionMark(n: string)
    requires forall k :: 0 <= k < |n| ==> IsIdentPart(n[k])
    ensures Count('?', ":" + n) == 0
    decreases |n|
  {
    if n != [] {
      NameHasNoQuestionMark(n[1..]);
      assert (":" + n)[1..] == n;
      assert (":" + n[1..])[1..] == n[1..];
      assert n == [n[0]] + n[1..];
    }
  }

  /** The rewritten text holds one `?` per recorded position on top of those
      already in the input.  A `?` of the input's own that the driver counts
      as a placeholder therefore shifts the numbering of the parameters after
      it; the driver's own counting (quoted literals, for instance) is not
      part of this model. */
  lemma PlaceholderCount(s: string)
    ensures Count('?', Parse(s).sql) == Count('?', s) + |Names(Tokens(s))|
  {
    ParseIsTokenRewrite(s);
    TokensWellFormed(s);
    SourceOfTokens(s);
    CountQuestionMarks(Tokens(s));
  }
}
