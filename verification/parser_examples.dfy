/** Concrete rewrites: the example in the comment above parseSql
    (NamedParameterStatement.java:31-32), the query of Main.java, a name used
    twice, and the colon cases the rewriter treats specially.  The longer
    examples are first proved for a whole family of texts of the same shape,
    with symbolic surrounding text, and then instantiated. */
module ParserExamples {
  import opened Identifiers
  import opened Positions
  import opened SqlParser

  /** Text between or after parameters: non-empty, colon-free, and not
      continuing the preceding name. */
  predicate Gap(g: string) {
    g != [] && ':' !in g && !IsIdentPart(g[0])
  }

  /** A parse is the token rewrite's text with the index of its names. */
  lemma Assemble(s: string, out: string, ns: seq<string>)
    requires Text(Tokens(s)) == out && Names(Tokens(s)) == ns
    ensures Parse(s) == Parsed(out, Index(ns))
  {
    ParseIsTokenRewrite(s);
  }

  lemma IndexOfOne(a: string)
    ensures Index([a]) == map[a := [1]]
  {
    var e: seq<nat> := [];
    assert Index([]) == map[];
    IndexSnoc([], a);
    assert [] + [a] == [a];
    assert e + [1] == [1];
  }

  lemma IndexOfThree(a: string, b: string, c: string)
    requires a != b && b != c && a != c
    ensures Index([a, b, c]) == map[a := [1], b := [2], c := [3]]
  {
    var e: seq<nat> := [];
    IndexOfOne(a);
    IndexSnoc([a], b);
    assert [a] + [b] == [a, b];
    assert e + [2] == [2];
    assert Index([a, b]) == map[a := [1], b := [2]];
    IndexSnoc([a, b], c);
    assert [a, b] + [c] == [a, b, c];
    assert e + [3] == [3];
  }

  lemma IndexOfRepeated(x: string)
    ensures Index([x, x]) == map[x := [1, 2]]
  {
    IndexOfOne(x);
    IndexSnoc([x], x);
    assert [x] + [x] == [x, x];
    assert [1] + [2] == [1, 2];
  }

  lemma OneParam(c: string, close: string)
    requires ValidName(c) && (close == [] || Gap(close))
    ensures Text(Tokens(":" + c + close)) == "?" + close
    ensures Names(Tokens(":" + c + close)) == [c]
  {
    NoColonTokens(close);
    RewriteParam(c, close);
    assert [c] + [] == [c];
  }

  lemma TwoParams(b: string, c: string, sep: string, close: string)
    requires ValidName(b) && ValidName(c) && Gap(sep) && (close == [] || Gap(close))
    ensures Text(Tokens(":" + b + (sep + (":" + c + close)))) == "?" + (sep + ("?" + close))
    ensures Names(Tokens(":" + b + (sep + (":" + c + close)))) == [b, c]
  {
    OneParam(c, close);
    RewritePlain(sep, ":" + c + close);
    RewriteParam(b, sep + (":" + c + close));
    assert [b] + [c] == [b, c];
  }

  lemma ThreeParams(a: string, b: string, c: string, sep: string, close: string)
    requires ValidName(a) && ValidName(b) && ValidName(c) && Gap(sep) && Gap(close)
    ensures Text(Tokens(":" + a + (sep + (":" + b + (sep + (":" + c + close))))))
         == "?" + (sep + ("?" + (sep + ("?" + close))))
    ensures Names(Tokens(":" + a + (sep + (":" + b + (sep + (":" + c + close)))))) == [a, b, c]
  {
    var r := ":" + b + (sep + (":" + c + close));
    TwoParams(b, c, sep, close);
    RewritePlain(sep, r);
    RewriteParam(a, sep + r);
    assert [a] + [b, c] == [a, b, c];
  }

  /** The shape of the example in the comment above parseSql: three distinct
      names separated by the same gap. */
  lemma ThreeNamesShape(head: string, a: string, b: string, c: string, sep: string, close: string)
    requires ':' !in head && Gap(sep) && Gap(close)
    requires ValidName(a) && ValidName(b) && ValidName(c) && a != b && b != c && a != c
    ensures Parse(head + ":" + a + sep + ":" + b + sep + ":" + c + close)
         == Parsed(head + "?" + sep + "?" + sep + "?" + close, map[a := [1], b := [2], c := [3]])
  {
    var r := ":" + a + (sep + (":" + b + (sep + (":" + c + close))));
    var s := head + ":" + a + sep + ":" + b + sep + ":" + c + close;
    var out := head + "?" + sep + "?" + sep + "?" + close;
    assert s == head + r;
    assert out == head + ("?" + (sep + ("?" + (sep + ("?" + close)))));
    ThreeParams(a, b, c, sep, close);
    RewritePlain(head, r);
    Assemble(s, out, [a, b, c]);
    IndexOfThree(a, b, c);
  }

  lemma DocPieces()
    ensures "INSERT INTO user (id, name, email) VALUES (" + ":" + "id" + ", " + ":" + "name" + ", " + ":" + "email" + ")"
         == "INSERT INTO user (id, name, email) VALUES (:id, :name, :email)"
    ensures "INSERT INTO user (id, name, email) VALUES (" + "?" + ", " + "?" + ", " + "?" + ")"
         == "INSERT INTO user (id, name, email) VALUES (?, ?, ?)"
  {
  }

  /** NamedParameterStatement.java:31-32. */
  lemma DocCommentExample()
    ensures Parse("INSERT INTO user (id, name, email) VALUES (:id, :name, :email)")
         == Parsed("INSERT INTO user (id, name, email) VALUES (?, ?, ?)", map["id" := [1], "name" := [2], "email" := [3]])
  {
    ThreeNamesShape("INSERT INTO user (id, name, email) VALUES (", "id", "name", "email", ", ", ")");
    DocPieces();
  }

  /** A single parameter closing the text. */
  lemma TrailingNameShape(head: string, n: string)
    requires ':' !in head && ValidName(n)
    ensures Parse(head + ":" + n) == Parsed(head + "?", map[n := [1]])
  {
    var r := ":" + n + "";
    assert head + r == head + ":" + n;
    assert head + ("?" + "") == head + "?";
    OneParam(n, "");
    RewritePlain(head, r);
    Assemble(head + ":" + n, head + "?", [n]);
    IndexOfOne(n);
  }

  /** Main.java:9-10: the query the demo program runs. */
  lemma MainQueryExample()
    ensures Parse("select * from t_user where name is :name")
         == Parsed("select * from t_user where name is ?", map["name" := [1]])
  {
    TrailingNameShape("select * from t_user where name is ", "name");
    assert "select * from t_user where name is " + ":" + "name" == "select * from t_user where name is :name";
    assert "select * from t_user where name is " + "?" == "select * from t_user where name is ?";
  }

  /** A name used twice collects both positions in one list. */
  lemma RepeatedNameShape(head: string, x: string, mid: string)
    requires ':' !in head && Gap(mid) && ValidName(x)
    ensures Parse(head + ":" + x + mid + ":" + x) == Parsed(head + "?" + mid + "?", map[x := [1, 2]])
  {
    var r := ":" + x + (mid + (":" + x + ""));
    var s := head + ":" + x + mid + ":" + x;
    var out := head + "?" + mid + "?";
    assert s == head + r;
    assert out == head + ("?" + (mid + ("?" + "")));
    TwoParams(x, x, mid, "");
    RewritePlain(head, r);
    Assemble(s, out, [x, x]);
    IndexOfRepeated(x);
  }

  lemma RepeatedNameExample()
    ensures Parse("SELECT * FROM t WHERE a = :x OR b = :x")
         == Parsed("SELECT * FROM t WHERE a = ? OR b = ?", map["x" := [1, 2]])
  {
    RepeatedNameShape("SELECT * FROM t WHERE a = ", "x", " OR b = ");
    assert "SELECT * FROM t WHERE a = " + ":" + "x" + " OR b = " + ":" + "x" == "SELECT * FROM t WHERE a = :x OR b = :x";
    assert "SELECT * FROM t WHERE a = " + "?" + " OR b = " + "?" == "SELECT * FROM t WHERE a = ? OR b = ?";
  }

  /** Java counts the identifier-ignorable control characters as identifier
      parts, so a BEL right after a name becomes part of that name. */
  lemma IgnorableControlExample()
    ensures Parse([':', 'a', 7 as char]) == Parsed("?", map[['a', 7 as char] := [1]])
  {
    var n := ['a', 7 as char];
    TrailingNameShape("", n);
    assert "" + ":" + n == [':', 'a', 7 as char];
    assert "" + "?" == "?";
  }

  /** A colon before a digit is dropped, not copied: a time literal loses it. */
  lemma TimeLiteralExample()
    ensures Parse("10:30") == Parsed("1030", map[])
  {
  }

  /** A colon in the last position is copied. */
  lemma TrailingColonExample()
    ensures Parse("ratio:") == Parsed("ratio:", map[])
  {
  }

  /** A double colon followed by a name: the first colon is dropped and the
      second opens a parameter. */
  lemma CastShape(head: string, n: string)
    requires ':' !in head && ValidName(n)
    ensures Parse(head + "::" + n) == Parsed(head + "?", map[n := [1]])
  {
    var p := ":" + n + "";
    var s := head + "::" + n;
    assert s == head + (":" + p);
    assert head + ("" + ("?" + "")) == head + "?";
    OneParam(n, "");
    TokensOfDrop(p);
    Cons(Drop, Tokens(p));
    assert [] + [n] == [n];
    RewritePlain(head, ":" + p);
    Assemble(s, head + "?", [n]);
    IndexOfOne(n);
  }

  /** A PostgreSQL cast loses its first colon, and the second one opens a
      parameter named after the type. */
  lemma CastExample()
    ensures Parse("x::int") == Parsed("x?", map["int" := [1]])
  {
    CastShape("x", "int");
    assert "x" + "::" + "int" == "x::int";
    assert "x" + "?" == "x?";
  }
}
