/**
 SQL statements with '?' placeholders and the values bound to them.  A statement is seen as a row of
 pieces, each a stretch of text with the values it contributes; the order in which the table of
 conditions is walked is a parameter.  Line numbers are those of db.lua.
 */
module SqlBuilder {
  import opened Basics

  type Value = int

  /** One condition, its operator already in upper case; `Other` is any comparison such as ">=". */
  datatype Condition =
    | Equals(name: string, value: Value)
    | In(name: string, list: seq<Value>)
    | Between(name: string, low: Value, high: Value)
    | Like(name: string, value: Value)
    | Other(name: string, op: string, value: Value)

  datatype Piece = Piece(text: string, values: seq<Value>)

  function Marks(s: string): nat {
    if s == [] then 0 else Marks(s[..|s| - 1]) + if s[|s| - 1] == '?' then 1 else 0
  }

  lemma {:induction false} MarksAdd(a: string, b: string)
    ensures Marks(a + b) == Marks(a) + Marks(b)
    decreases |b|
  {
    if b == [] {
      assert a + b == a;
    } else {
      MarksAdd(a, b[..|b| - 1]);
      assert (a + b)[..|a + b| - 1] == a + b[..|b| - 1];
    }
  }

  /** As many placeholders as values. */
  predicate Matched(p: Piece) {
    Marks(p.text) == |p.values|
  }

  predicate AllMatched(ps: seq<Piece>) {
    forall i :: 0 <= i < |ps| ==> Matched(ps[i])
  }

  function Texts(ps: seq<Piece>): seq<string> {
    seq(|ps|, i requires 0 <= i < |ps| => ps[i].text)
  }

  function ValueLists(ps: seq<Piece>): seq<seq<Value>> {
    seq(|ps|, i requires 0 <= i < |ps| => ps[i].values)
  }

  function Text(ps: seq<Piece>): string {
    Flatten(Texts(ps))
  }

  function Values(ps: seq<Piece>): seq<Value> {
    Flatten(ValueLists(ps))
  }

  lemma Splits(a: seq<Piece>, b: seq<Piece>)
    ensures Text(a + b) == Text(a) + Text(b) && Values(a + b) == Values(a) + Values(b)
  {
    assert Texts(a + b) == Texts(a) + Texts(b);
    assert ValueLists(a + b) == ValueLists(a) + ValueLists(b);
    FlattenSplits(Texts(a), Texts(b));
    FlattenSplits(ValueLists(a), ValueLists(b));
  }

  lemma One(p: Piece)
    ensures Text([p]) == p.text && Values([p]) == p.values
  {
    assert Texts([p]) == [p.text] && ValueLists([p]) == [p.values];
    assert Flatten([p.text]) == p.text + Flatten([]);
    assert Flatten([p.values]) == p.values + Flatten([]);
  }

  lemma {:induction false} MatchedTotal(ps: seq<Piece>)
    requires AllMatched(ps)
    ensures Marks(Text(ps)) == |Values(ps)|
  {
    if ps != [] {
      var n := |ps| - 1;
      MatchedTotal(ps[..n]);
      assert ps == ps[..n] + [ps[n]];
      Splits(ps[..n], [ps[n]]);
      One(ps[n]);
      MarksAdd(Text(ps[..n]), ps[n].text);
    }
  }

  /** Where piece `j` starts in the text, and where its values start. */
  function TextStart(ps: seq<Piece>, j: nat): nat
    requires j <= |ps|
  {
    |Text(ps[..j])|
  }

  function ValueStart(ps: seq<Piece>, j: nat): nat
    requires j <= |ps|
  {
    |Values(ps[..j])|
  }

  lemma UpTo(ps: seq<Piece>, j: nat)
    requires AllMatched(ps) && j <= |ps|
    ensures TextStart(ps, j) <= |Text(ps)| && Text(ps)[..TextStart(ps, j)] == Text(ps[..j])
    ensures Marks(Text(ps)[..TextStart(ps, j)]) == ValueStart(ps, j)
  {
    assert ps == ps[..j] + ps[j..];
    Splits(ps[..j], ps[j..]);
    MatchedTotal(ps[..j]);
  }

  lemma MarksMonotone(s: string, p: nat, q: nat)
    requires p <= q <= |s|
    ensures Marks(s[..p]) <= Marks(s[..q])
    ensures p < q && s[p] == '?' ==> Marks(s[..p]) < Marks(s[..q])
  {
    MarksAdd(s[..p], s[p..q]);
    assert s[..q] == s[..p] + s[p..q];
    if p < q && s[p] == '?' {
      MarksAdd([s[p]], s[p + 1..q]);
      assert s[p..q] == [s[p]] + s[p + 1..q];
      assert Marks([s[p]]) == 1;
    }
  }

  /**
   A placeholder stands in the text of piece `j` iff the value of the same rank, counting both from the
   left, was supplied by piece `j`.
   */
  lemma PlaceholderOwner(ps: seq<Piece>, p: nat, j: nat)
    requires AllMatched(ps) && p < |Text(ps)| && Text(ps)[p] == '?' && j < |ps|
    ensures Marks(Text(ps)[..p]) < |Values(ps)|
    ensures TextStart(ps, j) <= p < TextStart(ps, j + 1) <==>
      ValueStart(ps, j) <= Marks(Text(ps)[..p]) < ValueStart(ps, j + 1)
  {
    var s := Text(ps);
    UpTo(ps, j);
    UpTo(ps, j + 1);
    MatchedTotal(ps);
    assert s[..|s|] == s;
    MarksMonotone(s, p, |s|);
    var a, b := TextStart(ps, j), TextStart(ps, j + 1);
    if a <= p { MarksMonotone(s, a, p); } else { MarksMonotone(s, p, a); }
    if p < b { MarksMonotone(s, p, b); } else { MarksMonotone(s, b, p); }
  }

  // ---------- Statements as pieces ----------

  function Join<T>(parts: seq<seq<T>>, sep: seq<T>): seq<T> {
    if parts == [] then []
    else if |parts| == 1 then parts[0]
    else parts[0] + sep + Join(parts[1..], sep)
  }

  /** With a separator after the last part too, a join is a concatenation. */
  lemma {:induction false} JoinIsFlatten<T>(parts: seq<seq<T>>, sep: seq<T>)
    requires parts != []
    ensures Join(parts, sep) + sep == Flatten(seq(|parts|, i requires 0 <= i < |parts| => parts[i] + sep))
  {
    var all := seq(|parts|, i requires 0 <= i < |parts| => parts[i] + sep);
    if |parts| == 1 {
      assert all[1..] == [];
    } else {
      JoinIsFlatten(parts[1..], sep);
      assert all[1..] == seq(|parts[1..]|, i requires 0 <= i < |parts[1..]| => parts[1..][i] + sep);
      assert parts[0] + sep + (Join(parts[1..], sep) + sep) == Join(parts, sep) + sep;
    }
  }

  function Interleaved(ps: seq<Piece>, sep: string): seq<Piece> {
    if |ps| <= 1 then ps else [ps[0], Piece(sep, [])] + Interleaved(ps[1..], sep)
  }

  lemma {:induction false} InterleavedIsJoin(ps: seq<Piece>, sep: string)
    ensures Text(Interleaved(ps, sep)) == Join(Texts(ps), sep) && Values(Interleaved(ps, sep)) == Values(ps)
  {
    if |ps| == 0 {
      assert Texts(ps) == [];
    } else if |ps| == 1 {
      One(ps[0]);
      assert ps == [ps[0]] && Texts(ps) == [ps[0].text];
    } else if |ps| > 1 {
      var p, s, rest := ps[0], Piece(sep, []), Interleaved(ps[1..], sep);
      InterleavedIsJoin(ps[1..], sep);
      assert Texts(ps)[1..] == Texts(ps[1..]);
      Splits([p, s], rest);
      assert [p, s] == [p] + [s];
      Splits([p], [s]);
      One(p);
      One(s);
      assert ps == [p] + ps[1..];
      Splits([p], ps[1..]);
      assert p.values + [] == p.values;
    }
  }

  lemma {:induction false} InterleavedMatched(ps: seq<Piece>, sep: string)
    requires AllMatched(ps) && Marks(sep) == 0
    ensures AllMatched(Interleaved(ps, sep))
  {
    if |ps| > 1 {
      InterleavedMatched(ps[1..], sep);
    }
  }

  function Mark(v: Value): Piece {
    Piece("?", [v])
  }

  function MarkPieces(vs: seq<Value>): seq<Piece> {
    seq(|vs|, i requires 0 <= i < |vs| => Mark(vs[i]))
  }

  /** A list of placeholders for a list of values. */
  function MarkList(vs: seq<Value>): Piece {
    Piece(Text(Interleaved(MarkPieces(vs), ", ")), vs)
  }

  lemma {:induction false} MarkValues(vs: seq<Value>)
    ensures Values(MarkPieces(vs)) == vs
  {
    if vs == [] {
      assert ValueLists(MarkPieces(vs)) == [];
    } else {
      MarkValues(vs[1..]);
      assert MarkPieces(vs) == [Mark(vs[0])] + MarkPieces(vs[1..]);
      Splits([Mark(vs[0])], MarkPieces(vs[1..]));
      One(Mark(vs[0]));
    }
  }

  lemma MarkListMatched(vs: seq<Value>)
    ensures Matched(MarkList(vs))
  {
    Literals();
    InterleavedMatched(MarkPieces(vs), ", ");
    MatchedTotal(Interleaved(MarkPieces(vs), ", "));
    InterleavedIsJoin(MarkPieces(vs), ", ");
    MarkValues(vs);
  }

  function Clause(c: Condition): Piece {
    match c
    case Equals(name, v) => Piece(name + " = ?", [v])
    case In(name, list) => Piece(name + " IN (" + MarkList(list).text + ")", list)
    case Between(name, low, high) => Piece(name + " BETWEEN ? AND ?", [low, high])
    case Like(name, v) => Piece(name + " LIKE ?", [v])
    case Other(name, op, v) => Piece(name + " " + op + " ?", [v])
  }

  /** Names and operators carry no placeholder of their own. */
  predicate Clean(c: Condition) {
    Marks(c.name) == 0 && (c.Other? ==> Marks(c.op) == 0)
  }

  lemma {:induction false} NoMarks(s: string)
    requires '?' !in s
    ensures Marks(s) == 0
  {
    if s != [] {
      NoMarks(s[..|s| - 1]);
    }
  }

  lemma OneMark(s: string)
    requires '?' !in s
    ensures Marks(s + "?") == 1
  {
    NoMarks(s);
    assert (s + "?")[..|s|] == s;
  }

  lemma Literals()
    ensures Marks(" = ?") == 1 && Marks(" LIKE ?") == 1 && Marks(" BETWEEN ? AND ?") == 2 && Marks(" ?") == 1
    ensures Marks(" IN (") == 0 && Marks(")") == 0 && Marks(" ") == 0
    ensures Marks(" WHERE ") == 0 && Marks(" AND ") == 0 && Marks(", ") == 0 && Marks("?") == 1
  {
    hide Marks;
    OneMark(" = ");
    OneMark(" LIKE ");
    OneMark(" BETWEEN ");
    OneMark(" AND ");
    OneMark(" ");
    MarksAdd(" BETWEEN ?", " AND ?");
    assert " = " + "?" == " = ?" && " LIKE " + "?" == " LIKE ?" && " " + "?" == " ?";
    assert " BETWEEN " + "?" == " BETWEEN ?" && " AND " + "?" == " AND ?";
    assert " BETWEEN ?" + " AND ?" == " BETWEEN ? AND ?";
    NoMarks(" IN (");
    NoMarks(")");
    NoMarks(" ");
    NoMarks(" WHERE ");
    NoMarks(" AND ");
    NoMarks(", ");
    OneMark("");
    assert "" + "?" == "?";
  }

  lemma StatementLiterals()
    ensures Marks("UPDATE ") == 0 && Marks(" SET ") == 0
    ensures Marks("INSERT INTO ") == 0 && Marks(" (") == 0 && Marks(") VALUES (") == 0
  {
    hide Marks;
    NoMarks("UPDATE ");
    NoMarks(" SET ");
    NoMarks("INSERT INTO ");
    NoMarks(" (");
    NoMarks(") VALUES (");
  }

  lemma ClauseMatched(c: Condition)
    requires Clean(c)
    ensures Matched(Clause(c))
  {
    hide Marks;
    Literals();
    match c
    case Equals(name, v) => MarksAdd(name, " = ?");
    case Like(name, v) => MarksAdd(name, " LIKE ?");
    case Between(name, low, high) => MarksAdd(name, " BETWEEN ? AND ?");
    case In(name, list) =>
      MarkListMatched(list);
      MarksAdd(name, " IN (");
      MarksAdd(name + " IN (", MarkList(list).text);
      MarksAdd(name + " IN (" + MarkList(list).text, ")");
    case Other(name, op, v) =>
      MarksAdd(name, " ");
      MarksAdd(name + " ", op);
      MarksAdd(name + " " + op, " ?");
  }

  function Clauses(cs: seq<Condition>): seq<Piece> {
    seq(|cs|, i requires 0 <= i < |cs| => Clause(cs[i]))
  }

  predicate AllClean(cs: seq<Condition>) {
    forall i :: 0 <= i < |cs| ==> Clean(cs[i])
  }

  function WherePieces(cs: seq<Condition>): seq<Piece> {
    if cs == [] then [] else [Piece(" WHERE ", [])] + Interleaved(Clauses(cs), " AND ")
  }

  /** In every WHERE clause, for every order of the conditions, placeholders and values match piece by piece. */
  lemma WhereMatched(cs: seq<Condition>)
    requires AllClean(cs)
    ensures AllMatched(WherePieces(cs))
  {
    hide Marks;
    Literals();
    forall i | 0 <= i < |cs| ensures Matched(Clause(cs[i])) {
      ClauseMatched(cs[i]);
    }
    InterleavedMatched(Clauses(cs), " AND ");
  }

  /** UPDATE: the SET values, then the WHERE values. */
  function UpdatePieces(table: string, data: seq<Condition>, cs: seq<Condition>): seq<Piece> {
    [Piece("UPDATE " + table + " SET ", [])] + Interleaved(Clauses(data), ", ") + WherePieces(cs)
  }

  lemma UpdateMatched(table: string, data: seq<Condition>, cs: seq<Condition>)
    requires Marks(table) == 0 && AllClean(data) && AllClean(cs)
    ensures AllMatched(UpdatePieces(table, data, cs))
  {
    hide Marks;
    Literals();
    StatementLiterals();
    MarksAdd("UPDATE ", table);
    MarksAdd("UPDATE " + table, " SET ");
    forall i | 0 <= i < |data| ensures Matched(Clause(data[i])) {
      ClauseMatched(data[i]);
    }
    InterleavedMatched(Clauses(data), ", ");
    WhereMatched(cs);
  }

  function InsertPieces(table: string, fields: seq<string>, vs: seq<Value>): seq<Piece> {
    [Piece("INSERT INTO " + table + " (" + Join(fields, ", ") + ") VALUES (", [])]
    + Interleaved(MarkPieces(vs), ", ") + [Piece(")", [])]
  }

  lemma {:induction false} JoinMarks(parts: seq<string>, sep: string)
    requires Marks(sep) == 0 && forall i :: 0 <= i < |parts| ==> Marks(parts[i]) == 0
    ensures Marks(Join(parts, sep)) == 0
  {
    if |parts| > 1 {
      JoinMarks(parts[1..], sep);
      MarksAdd(parts[0], sep);
      MarksAdd(parts[0] + sep, Join(parts[1..], sep));
    }
  }

  lemma InsertMatched(table: string, fields: seq<string>, vs: seq<Value>)
    requires Marks(table) == 0 && forall i :: 0 <= i < |fields| ==> Marks(fields[i]) == 0
    ensures AllMatched(InsertPieces(table, fields, vs))
  {
    hide Marks;
    Literals();
    StatementLiterals();
    var f := Join(fields, ", ");
    JoinMarks(fields, ", ");
    MarksAdd("INSERT INTO ", table);
    MarksAdd("INSERT INTO " + table, " (");
    MarksAdd("INSERT INTO " + table + " (", f);
    MarksAdd("INSERT INTO " + table + " (" + f, ") VALUES (");
    InterleavedMatched(MarkPieces(vs), ", ");
  }

  // ---------- What a statement with bound values says ----------

  /** A character of the statement, or a value standing in it. */
  datatype Token = Char(c: char) | Val(v: Value)

  function Plain(s: string): seq<Token> {
    seq(|s|, i requires 0 <= i < |s| => Char(s[i]))
  }

  /** What the database reads: the placeholder with `k` others before it stands for value number `k`. */
  function Bound(text: string, values: seq<Value>): seq<Token> {
    seq(|text|, p requires 0 <= p < |text| =>
      if text[p] == '?' && Marks(text[..p]) < |values| then Val(values[Marks(text[..p])]) else Char(text[p]))
  }

  lemma BoundSplits(a: string, x: seq<Value>, b: string, y: seq<Value>)
    requires Marks(a) == |x|
    ensures Bound(a + b, x + y) == Bound(a, x) + Bound(b, y)
  {
    hide Marks;
    var s, l, r := a + b, Bound(a + b, x + y), Bound(a, x) + Bound(b, y);
    forall p | 0 <= p < |s| ensures l[p] == r[p] {
      if p < |a| {
        assert s[..p] == a[..p];
        MarksMonotone(a, p, |a|);
        assert a[..|a|] == a;
      } else {
        assert s[..p] == a + b[..p - |a|];
        MarksAdd(a, b[..p - |a|]);
      }
    }
  }

  lemma BoundPlain(s: string)
    requires Marks(s) == 0
    ensures Bound(s, []) == Plain(s)
  {
  }

  lemma PlainThenMark(s: string, v: Value)
    requires Marks(s) == 0
    ensures Bound(s + "?", [v]) == Plain(s) + [Val(v)] && Marks(s + "?") == 1
  {
    Literals();
    BoundSplits(s, [], "?", [v]);
    BoundPlain(s);
    assert [] + [v] == [v] && Bound("?", [v]) == [Val(v)];
    MarksAdd(s, "?");
  }

  function Bounds(ps: seq<Piece>): seq<seq<Token>> {
    seq(|ps|, i requires 0 <= i < |ps| => Bound(ps[i].text, ps[i].values))
  }

  /** Pieces in which placeholders and values match can be read one by one. */
  lemma {:induction false} PiecesBound(ps: seq<Piece>)
    requires AllMatched(ps)
    ensures Bound(Text(ps), Values(ps)) == Flatten(Bounds(ps))
  {
    if ps != [] {
      var p, rest := ps[0], ps[1..];
      PiecesBound(rest);
      assert ps == [p] + rest && Bounds(ps)[1..] == Bounds(rest);
      Splits([p], rest);
      One(p);
      BoundSplits(p.text, p.values, Text(rest), Values(rest));
    }
  }

  lemma {:induction false} InterleavedBounds(ps: seq<Piece>, sep: string)
    requires Marks(sep) == 0
    ensures Flatten(Bounds(Interleaved(ps, sep))) == Join(Bounds(ps), Plain(sep))
  {
    if |ps| == 1 {
      assert Bounds(ps) == [Bound(ps[0].text, ps[0].values)];
      assert Flatten(Bounds(ps)[1..]) == [];
    } else if |ps| > 1 {
      var b, rest := Bounds(Interleaved(ps, sep)), Interleaved(ps[1..], sep);
      InterleavedBounds(ps[1..], sep);
      BoundPlain(sep);
      assert b[0] == Bounds(ps)[0] && b[1] == Plain(sep) && b[2..] == Bounds(rest);
      assert b[1..][1..] == b[2..] && Bounds(ps)[1..] == Bounds(ps[1..]);
      assert Flatten(b) == b[0] + (b[1] + Flatten(b[1..][1..]));
    }
  }

  /** A condition with its values written out in their places. */
  function Written(c: Condition): seq<Token> {
    match c
    case Equals(name, v) => Plain(name + " = ") + [Val(v)]
    case In(name, list) => Plain(name + " IN (") + Join(Singles(list), Plain(", ")) + Plain(")")
    case Between(name, low, high) => Plain(name + " BETWEEN ") + [Val(low)] + Plain(" AND ") + [Val(high)]
    case Like(name, v) => Plain(name + " LIKE ") + [Val(v)]
    case Other(name, op, v) => Plain(name + " " + op + " ") + [Val(v)]
  }

  function Singles(vs: seq<Value>): seq<seq<Token>> {
    seq(|vs|, i requires 0 <= i < |vs| => [Val(vs[i])])
  }

  function AllWritten(cs: seq<Condition>): seq<seq<Token>> {
    seq(|cs|, i requires 0 <= i < |cs| => Written(cs[i]))
  }

  lemma MarkListMeans(vs: seq<Value>)
    ensures Bound(MarkList(vs).text, vs) == Join(Singles(vs), Plain(", "))
  {
    hide Marks;
    Literals();
    var ps := MarkPieces(vs);
    InterleavedMatched(ps, ", ");
    PiecesBound(Interleaved(ps, ", "));
    InterleavedIsJoin(ps, ", ");
    MarkValues(vs);
    InterleavedBounds(ps, ", ");
    forall i | 0 <= i < |vs| ensures Bounds(ps)[i] == [Val(vs[i])] {
      SingleMark(vs[i]);
    }
    assert Bounds(ps) == Singles(vs);
  }

  lemma SingleMark(v: Value)
    ensures Bound("?", [v]) == [Val(v)]
  {
  }

  lemma BetweenMeans(name: string, low: Value, high: Value)
    requires Marks(name) == 0
    ensures Bound(name + " BETWEEN ? AND ?", [low, high]) == Written(Between(name, low, high))
  {
    hide Marks;
    hide Bound;
    hide Plain;
    NoMarks(" BETWEEN ");
    NoMarks(" AND ");
    MarksAdd(name, " BETWEEN ");
    PlainThenMark(name + " BETWEEN ", low);
    PlainThenMark(" AND ", high);
    BoundSplits(name + " BETWEEN " + "?", [low], " AND " + "?", [high]);
    assert name + " BETWEEN " + "?" + (" AND " + "?") == name + " BETWEEN ? AND ?";
    assert [low] + [high] == [low, high];
    var a, b := Plain(name + " BETWEEN ") + [Val(low)], Plain(" AND ");
    assert a + (b + [Val(high)]) == a + b + [Val(high)];
  }

  lemma InMeans(name: string, list: seq<Value>)
    requires Marks(name) == 0
    ensures Bound(name + " IN (" + MarkList(list).text + ")", list) == Written(In(name, list))
  {
    hide Marks;
    hide Bound;
    hide Plain;
    Literals();
    MarksAdd(name, " IN (");
    MarkListMatched(list);
    MarkListMeans(list);
    var head, body := name + " IN (", MarkList(list).text;
    BoundPlain(head);
    BoundPlain(")");
    BoundSplits(head, [], body, list);
    MarksAdd(head, body);
    BoundSplits(head + body, [] + list, ")", []);
    assert [] + list == list && list + [] == list;
  }

  /** Binding a clause's values gives the condition with each value in its place. */
  lemma ClauseMeans(c: Condition)
    requires Clean(c)
    ensures Bound(Clause(c).text, Clause(c).values) == Written(c)
  {
    hide Marks;
    hide Bound;
    match c
    case Equals(name, v) =>
      NoMarks(" = ");
      MarksAdd(name, " = ");
      PlainThenMark(name + " = ", v);
      assert name + " = " + "?" == name + " = ?";
    case In(name, list) => InMeans(name, list);
    case Between(name, low, high) => BetweenMeans(name, low, high);
    case Like(name, v) =>
      NoMarks(" LIKE ");
      MarksAdd(name, " LIKE ");
      PlainThenMark(name + " LIKE ", v);
      assert name + " LIKE " + "?" == name + " LIKE ?";
    case Other(name, op, v) =>
      Literals();
      MarksAdd(name, " ");
      MarksAdd(name + " ", op);
      MarksAdd(name + " " + op, " ");
      PlainThenMark(name + " " + op + " ", v);
      assert name + " " + op + " " + "?" == name + " " + op + " ?";
  }

  lemma ClausesMean(cs: seq<Condition>)
    requires AllClean(cs)
    ensures Bounds(Clauses(cs)) == AllWritten(cs)
  {
    forall i | 0 <= i < |cs| ensures Bounds(Clauses(cs))[i] == Written(cs[i]) {
      ClauseMeans(cs[i]);
    }
  }

  /** All conditions, after WHERE and joined by AND; nothing at all when there is none. */
  function WhereSentence(cs: seq<Condition>): seq<Token> {
    if cs == [] then [] else Plain(" WHERE ") + Join(AllWritten(cs), Plain(" AND "))
  }

  function UpdateSentence(table: string, data: seq<Condition>, cs: seq<Condition>): seq<Token> {
    Plain("UPDATE " + table + " SET ") + Join(AllWritten(data), Plain(", ")) + WhereSentence(cs)
  }

  function InsertSentence(table: string, fields: seq<string>, vs: seq<Value>): seq<Token> {
    Plain("INSERT INTO " + table + " (" + Join(fields, ", ") + ") VALUES (")
    + Join(Singles(vs), Plain(", ")) + Plain(")")
  }

  /** `sql` with `values` bound reads as `sentence`, with no placeholder and no value left over. */
  predicate Means(sql: string, values: seq<Value>, sentence: seq<Token>) {
    Marks(sql) == |values| && Bound(sql, values) == sentence
  }

  lemma BoundsSplit(a: seq<Piece>, b: seq<Piece>)
    ensures Flatten(Bounds(a + b)) == Flatten(Bounds(a)) + Flatten(Bounds(b))
  {
    assert Bounds(a + b) == Bounds(a) + Bounds(b);
    FlattenSplits(Bounds(a), Bounds(b));
  }

  lemma BoundsOne(text: string)
    requires Marks(text) == 0
    ensures Flatten(Bounds([Piece(text, [])])) == Plain(text)
  {
    BoundPlain(text);
    var b := Bounds([Piece(text, [])]);
    assert b[1..] == [] && Flatten(b) == b[0] + Flatten(b[1..]);
  }

  lemma WhereBounds(cs: seq<Condition>)
    requires AllClean(cs)
    ensures Flatten(Bounds(WherePieces(cs))) == WhereSentence(cs)
  {
    hide Marks;
    hide Bound;
    Literals();
    if cs == [] {
      assert Bounds([]) == [];
    } else {
      ClausesMean(cs);
      InterleavedBounds(Clauses(cs), " AND ");
      BoundsOne(" WHERE ");
      BoundsSplit([Piece(" WHERE ", [])], Interleaved(Clauses(cs), " AND "));
    }
  }

  /** Every condition, in the order walked, with its own values in their places. */
  lemma WhereMeans(cs: seq<Condition>)
    requires AllClean(cs)
    ensures Means(Text(WherePieces(cs)), Values(WherePieces(cs)), WhereSentence(cs))
  {
    hide Marks;
    hide Bound;
    WhereMatched(cs);
    PiecesBound(WherePieces(cs));
    MatchedTotal(WherePieces(cs));
    WhereBounds(cs);
  }

  /** UPDATE, the table, SET and every assignment, then every condition, each with its own values. */
  lemma UpdateMeans(table: string, data: seq<Condition>, cs: seq<Condition>)
    requires Marks(table) == 0 && AllClean(data) && AllClean(cs)
    ensures var ps := UpdatePieces(table, data, cs); Means(Text(ps), Values(ps), UpdateSentence(table, data, cs))
  {
    hide Marks;
    hide Bound;
    var head, sets := "UPDATE " + table + " SET ", Interleaved(Clauses(data), ", ");
    Literals();
    StatementLiterals();
    MarksAdd("UPDATE ", table);
    MarksAdd("UPDATE " + table, " SET ");
    UpdateMatched(table, data, cs);
    PiecesBound(UpdatePieces(table, data, cs));
    MatchedTotal(UpdatePieces(table, data, cs));
    BoundsSplit([Piece(head, [])] + sets, WherePieces(cs));
    BoundsSplit([Piece(head, [])], sets);
    BoundsOne(head);
    ClausesMean(data);
    InterleavedBounds(Clauses(data), ", ");
    WhereBounds(cs);
  }

  lemma InsertMeans(table: string, fields: seq<string>, vs: seq<Value>)
    requires Marks(table) == 0 && forall i :: 0 <= i < |fields| ==> Marks(fields[i]) == 0
    ensures var ps := InsertPieces(table, fields, vs); Means(Text(ps), Values(ps), InsertSentence(table, fields, vs))
  {
    hide Marks;
    hide Bound;
    var head, body := "INSERT INTO " + table + " (" + Join(fields, ", ") + ") VALUES (", Interleaved(MarkPieces(vs), ", ");
    Literals();
    InsertMatched(table, fields, vs);
    PiecesBound(InsertPieces(table, fields, vs));
    MatchedTotal(InsertPieces(table, fields, vs));
    BoundsSplit([Piece(head, [])] + body, [Piece(")", [])]);
    BoundsSplit([Piece(head, [])], body);
    assert Matched(InsertPieces(table, fields, vs)[0]);
    BoundsOne(head);
    BoundsOne(")");
    InterleavedBounds(MarkPieces(vs), ", ");
    forall i | 0 <= i < |vs| ensures Bounds(MarkPieces(vs))[i] == [Val(vs[i])] {
      SingleMark(vs[i]);
    }
    assert Bounds(MarkPieces(vs)) == Singles(vs);
  }

  // ---------- Which value each placeholder stands for ----------

  predicate EndsWith(s: string, tail: string) {
    |tail| <= |s| && s[|s| - |tail|..] == tail
  }

  /** Some placeholder right after the text `before` stands for `v`. */
  ghost predicate Binds(sql: string, values: seq<Value>, before: string, v: Value) {
    exists p :: 0 <= p < |sql| && IsBound(sql, values, p, before, v)
  }

  predicate IsBound(sql: string, values: seq<Value>, p: nat, before: string, v: Value)
    requires p < |sql|
  {
    && sql[p] == '?' && EndsWith(sql[..p], before)
    && Marks(sql[..p]) < |values| && values[Marks(sql[..p])] == v
  }

  /** Each value of the condition is bound to a placeholder after the condition's own name and keyword. */
  ghost predicate Binding(sql: string, values: seq<Value>, c: Condition) {
    match c
    case Equals(name, v) => Binds(sql, values, name + " = ", v)
    case In(name, list) =>
      forall i :: 0 <= i < |list| ==> Binds(sql, values, name + " IN (" + Repeated("?, ", i), list[i])
    case Between(name, low, high) =>
      Binds(sql, values, name + " BETWEEN ", low) && Binds(sql, values, name + " BETWEEN ? AND ", high)
    case Like(name, v) => Binds(sql, values, name + " LIKE ", v)
    case Other(name, op, v) => Binds(sql, values, name + " " + op + " ", v)
  }

  function Repeated(s: string, n: nat): string {
    if n == 0 then "" else s + Repeated(s, n - 1)
  }

  /** A placeholder of a piece is one of the statement, with the same value. */
  lemma PieceBinds(ps: seq<Piece>, j: nat, k: nat, before: string, v: Value)
    requires AllMatched(ps) && j < |ps| && k < |ps[j].text| && IsBound(ps[j].text, ps[j].values, k, before, v)
    ensures Binds(Text(ps), Values(ps), before, v)
  {
    var a, b, t := ps[..j], ps[j + 1..], ps[j].text;
    assert ps == a + [ps[j]] + b;
    Splits(a + [ps[j]], b);
    Splits(a, [ps[j]]);
    One(ps[j]);
    MatchedTotal(a);
    var sql, p := Text(ps), |Text(a)| + k;
    assert sql == Text(a) + t + Text(b) && sql[p] == t[k];
    assert sql[..p] == Text(a) + t[..k];
    MarksAdd(Text(a), t[..k]);
    assert Values(ps) == Values(a) + ps[j].values + Values(b);
    assert EndsWith(sql[..p], before);
    assert IsBound(sql, Values(ps), p, before, v);
  }

  /** The placeholder that follows a plain beginning. */
  lemma FirstMark(text: string, values: seq<Value>, before: string)
    requires Marks(before) == 0 && before + "?" <= text && |values| > 0
    ensures |before| < |text| && IsBound(text, values, |before|, before, values[0])
  {
    assert text[..|before|] == before;
  }

  lemma {:induction false} MarkListAt(vs: seq<Value>, i: nat)
    requires i < |vs|
    ensures Repeated("?, ", i) + "?" <= MarkList(vs).text && Marks(Repeated("?, ", i)) == i
  {
    InterleavedIsJoin(MarkPieces(vs), ", ");
    assert Texts(MarkPieces(vs))[0] == "?";
    if i == 0 {
      assert "" + "?" == "?";
    } else {
      MarkListAt(vs[1..], i - 1);
      InterleavedIsJoin(MarkPieces(vs[1..]), ", ");
      assert Texts(MarkPieces(vs))[1..] == Texts(MarkPieces(vs[1..]));
      var r, rest := Repeated("?, ", i - 1), MarkList(vs[1..]).text;
      assert MarkList(vs).text == "?" + ", " + rest;
      assert "?" + ", " == "?, " && Repeated("?, ", i) == "?, " + r;
      assert "?, " + r + "?" <= "?, " + rest;
      Literals();
      MarksAdd("?", ", ");
      MarksAdd("?, ", r);
    }
  }

  lemma InBinds(ps: seq<Piece>, j: nat, name: string, list: seq<Value>, i: nat)
    requires AllMatched(ps) && j < |ps| && ps[j] == Clause(In(name, list)) && Marks(name) == 0 && i < |list|
    ensures Binds(Text(ps), Values(ps), name + " IN (" + Repeated("?, ", i), list[i])
  {
    hide Marks;
    hide Repeated;
    Literals();
    MarkListAt(list, i);
    var head, r, body := name + " IN (", Repeated("?, ", i), MarkList(list).text;
    MarksAdd(name, " IN (");
    MarksAdd(head, r);
    var t := head + body + ")";
    assert t[|head + r|] == body[|r|] == '?';
    assert t[..|head + r|] == head + r;
    PieceBinds(ps, j, |head + r|, head + r, list[i]);
  }

  /** Two placeholders with a plain text between them. */
  lemma TwoBind(ps: seq<Piece>, j: nat, a: string, b: string, v: Value, w: Value)
    requires AllMatched(ps) && j < |ps| && Marks(a) == 0 && Marks(b) == 0
    requires ps[j] == Piece(a + "?" + b + "?", [v, w])
    ensures Binds(Text(ps), Values(ps), a, v) && Binds(Text(ps), Values(ps), a + "?" + b, w)
  {
    hide Marks;
    hide Binds;
    OneMark("");
    assert "" + "?" == "?";
    MarksAdd(a, "?");
    MarksAdd(a + "?", b);
    var t, c := ps[j].text, a + "?" + b;
    assert t[..|a|] == a && t[|a|] == '?';
    assert t[..|c|] == c && t[|c|] == '?';
    PieceBinds(ps, j, |a|, a, v);
    PieceBinds(ps, j, |c|, c, w);
  }

  lemma BetweenBinds(ps: seq<Piece>, j: nat, c: Condition)
    requires AllMatched(ps) && j < |ps| && ps[j] == Clause(c) && Clean(c) && c.Between?
    ensures Binds(Text(ps), Values(ps), c.name + " BETWEEN ", c.low)
    ensures Binds(Text(ps), Values(ps), c.name + " BETWEEN ? AND ", c.high)
  {
    hide Marks;
    hide Binds;
    hide AllMatched;
    NoMarks(" BETWEEN ");
    NoMarks(" AND ");
    MarksAdd(c.name, " BETWEEN ");
    BetweenText(c.name);
    TwoBind(ps, j, c.name + " BETWEEN ", " AND ", c.low, c.high);
  }

  lemma BetweenText(name: string)
    ensures name + " BETWEEN " + "?" + " AND " == name + " BETWEEN ? AND "
    ensures name + " BETWEEN " + "?" + " AND " + "?" == name + " BETWEEN ? AND ?"
  {
    assert " BETWEEN " + "?" + " AND " == " BETWEEN ? AND ";
    assert " BETWEEN ? AND " + "?" == " BETWEEN ? AND ?";
  }

  lemma SimpleBinds(ps: seq<Piece>, j: nat, before: string, v: Value)
    requires AllMatched(ps) && j < |ps| && Marks(before) == 0 && ps[j] == Piece(before + "?", [v])
    ensures Binds(Text(ps), Values(ps), before, v)
  {
    FirstMark(ps[j].text, [v], before);
    PieceBinds(ps, j, |before|, before, v);
  }

  lemma ClauseBinds(ps: seq<Piece>, j: nat, c: Condition)
    requires AllMatched(ps) && j < |ps| && ps[j] == Clause(c) && Clean(c)
    ensures Binding(Text(ps), Values(ps), c)
  {
    hide Marks;
    hide Binds;
    match c
    case Equals(name, v) =>
      NoMarks(" = ");
      MarksAdd(name, " = ");
      assert name + " = " + "?" == name + " = ?";
      SimpleBinds(ps, j, name + " = ", v);
    case In(name, list) =>
      forall i | 0 <= i < |list| ensures Binds(Text(ps), Values(ps), name + " IN (" + Repeated("?, ", i), list[i]) {
        InBinds(ps, j, name, list, i);
      }
    case Between(name, low, high) => BetweenBinds(ps, j, c);
    case Like(name, v) =>
      NoMarks(" LIKE ");
      MarksAdd(name, " LIKE ");
      assert name + " LIKE " + "?" == name + " LIKE ?";
      SimpleBinds(ps, j, name + " LIKE ", v);
    case Other(name, op, v) =>
      NoMarks(" ");
      MarksAdd(name, " ");
      MarksAdd(name + " ", op);
      MarksAdd(name + " " + op, " ");
      assert name + " " + op + " " + "?" == name + " " + op + " ?";
      SimpleBinds(ps, j, name + " " + op + " ", v);
  }

  lemma {:induction false} InterleavedAt(ps: seq<Piece>, sep: string, i: nat)
    requires i < |ps|
    ensures 2 * i < |Interleaved(ps, sep)| && Interleaved(ps, sep)[2 * i] == ps[i]
  {
    if i > 0 {
      InterleavedAt(ps[1..], sep, i - 1);
    }
  }

  /** In every UPDATE, each assignment and each condition has its values bound after its own name. */
  lemma UpdateBinds(table: string, data: seq<Condition>, cs: seq<Condition>, i: nat)
    requires Marks(table) == 0 && AllClean(data) && AllClean(cs)
    ensures var ps := UpdatePieces(table, data, cs);
      && (i < |data| ==> Binding(Text(ps), Values(ps), data[i]))
      && (i < |cs| ==> Binding(Text(ps), Values(ps), cs[i]))
  {
    hide Binding;
    hide Marks;
    var ps, sets := UpdatePieces(table, data, cs), Interleaved(Clauses(data), ", ");
    UpdateMatched(table, data, cs);
    if i < |data| {
      InterleavedAt(Clauses(data), ", ", i);
      ClauseBinds(ps, 1 + 2 * i, data[i]);
    }
    if i < |cs| {
      InterleavedAt(Clauses(cs), " AND ", i);
      ClauseBinds(ps, 1 + |sets| + 1 + 2 * i, cs[i]);
    }
  }

  /** The bound values are those of the assignments, then those of the conditions, in order. */
  lemma UpdateValues(table: string, data: seq<Condition>, cs: seq<Condition>)
    ensures Values(UpdatePieces(table, data, cs)) == Values(Clauses(data)) + Values(Clauses(cs))
    ensures Text(UpdatePieces(table, data, cs)) ==
      "UPDATE " + table + " SET " + Join(Texts(Clauses(data)), ", ") +
      if cs == [] then "" else " WHERE " + Join(Texts(Clauses(cs)), " AND ")
  {
    hide Join;
    hide Interleaved;
    hide WherePieces;
    hide Text;
    hide Values;
    var head, sets := Piece("UPDATE " + table + " SET ", []), Interleaved(Clauses(data), ", ");
    Splits([head] + sets, WherePieces(cs));
    Splits([head], sets);
    One(head);
    InterleavedIsJoin(Clauses(data), ", ");
    WhereText(cs);
  }

  lemma WhereText(cs: seq<Condition>)
    ensures Values(WherePieces(cs)) == Values(Clauses(cs))
    ensures Text(WherePieces(cs)) == if cs == [] then "" else " WHERE " + Join(Texts(Clauses(cs)), " AND ")
  {
    if cs == [] {
      assert Clauses(cs) == [];
    } else {
      InterleavedIsJoin(Clauses(cs), " AND ");
      Splits([Piece(" WHERE ", [])], Interleaved(Clauses(cs), " AND "));
      One(Piece(" WHERE ", []));
    }
  }

  // ---------- The builders ----------

  /** `table.concat`. */
  method Concat(parts: seq<string>, sep: string) returns (s: string)
    ensures s == Join(parts, sep)
  {
    s := "";
    var i := |parts|;
    while i > 0
      invariant 0 <= i <= |parts| && s == Join(parts[i..], sep)
    {
      i := i - 1;
      assert parts[i..][1..] == parts[i + 1..];
      s := if i == |parts| - 1 then parts[i] else parts[i] + sep + s;
    }
    assert parts[0..] == parts;
  }

  /** Lines 55-60: placeholders and values of an IN list. */
  method ListMarks(list: seq<Value>, values0: seq<Value>) returns (text: string, values: seq<Value>)
    ensures text == MarkList(list).text && values == values0 + list
  {
    var placeholders := [];
    values := values0;
    for i := 0 to |list|
      invariant placeholders == Texts(MarkPieces(list[..i])) && values == values0 + list[..i]
    {
      placeholders := placeholders + ["?"];
      values := values + [list[i]];
    }
    assert list[..|list|] == list;
    InterleavedIsJoin(MarkPieces(list), ", ");
    text := Concat(placeholders, ", ");
  }

  /** Lines 50-75: one condition's clause, its values appended to `values0`. */
  method AppendClause(c: Condition, values0: seq<Value>) returns (text: string, values: seq<Value>)
    ensures text == Clause(c).text && values == values0 + Clause(c).values
  {
    match c {
      case Equals(name, v) => text, values := name + " = ?", values0 + [v];
      case In(name, list) =>
        var marks;
        marks, values := ListMarks(list, values0);
        text := name + " IN (" + marks + ")";
      case Between(name, low, high) => text, values := name + " BETWEEN ? AND ?", values0 + [low] + [high];
      case Like(name, v) => text, values := name + " LIKE ?", values0 + [v];
      case Other(name, op, v) => text, values := name + " " + op + " ?", values0 + [v];
    }
  }

  method BuildClauses(cs: seq<Condition>) returns (clauses: seq<string>, values: seq<Value>)
    ensures clauses == Texts(Clauses(cs)) && values == Values(Clauses(cs))
  {
    clauses, values := [], [];
    for i := 0 to |cs|
      invariant clauses == Texts(Clauses(cs[..i])) && values == Values(Clauses(cs[..i]))
    {
      var text;
      text, values := AppendClause(cs[i], values);
      clauses := clauses + [text];
      assert Clauses(cs[..i + 1]) == Clauses(cs[..i]) + [Clause(cs[i])];
      Splits(Clauses(cs[..i]), [Clause(cs[i])]);
      One(Clause(cs[i]));
    }
    assert cs[..|cs|] == cs;
  }

  /** `build_where_clause`. */
  method BuildWhereClause(cs: seq<Condition>) returns (sql: string, values: seq<Value>)
    ensures sql == Text(WherePieces(cs)) && values == Values(WherePieces(cs))
    ensures AllClean(cs) ==> Means(sql, values, WhereSentence(cs))
  {
    if AllClean(cs) {
      WhereMeans(cs);
    }
    WhereText(cs);
    if cs == [] {
      return "", [];
    }
    var clauses;
    clauses, values := BuildClauses(cs);
    var joined := Concat(clauses, " AND ");
    sql := " WHERE " + joined;
  }

  /** The statement and the bound values of `M.update`. */
  method Update(table: string, data: seq<Condition>, cs: seq<Condition>) returns (sql: string, values: seq<Value>)
    requires forall i :: 0 <= i < |data| ==> data[i].Equals?
    ensures sql == Text(UpdatePieces(table, data, cs)) && values == Values(UpdatePieces(table, data, cs))
    ensures Marks(table) == 0 && AllClean(data) && AllClean(cs) ==> Means(sql, values, UpdateSentence(table, data, cs))
  {
    if Marks(table) == 0 && AllClean(data) && AllClean(cs) {
      UpdateMeans(table, data, cs);
    }
    UpdateValues(table, data, cs);
    WhereText(cs);
    var setClause, setValues := BuildClauses(data);
    var whereClause, whereValues := BuildWhereClause(cs);
    var joined := Concat(setClause, ", ");
    sql := "UPDATE " + table + " SET " + joined + whereClause;
    values := setValues + whereValues;
  }

  /** The statement and the bound values of `M.insert`. */
  method Insert(table: string, data: seq<(string, Value)>) returns (sql: string, values: seq<Value>)
    ensures var fields := seq(|data|, i requires 0 <= i < |data| => data[i].0);
      var vs := seq(|data|, i requires 0 <= i < |data| => data[i].1);
      && sql == Text(InsertPieces(table, fields, vs)) && values == Values(InsertPieces(table, fields, vs)) == vs
      && (Marks(table) == 0 && (forall i :: 0 <= i < |fields| ==> Marks(fields[i]) == 0)
          ==> Means(sql, values, InsertSentence(table, fields, vs)))
  {
    var fields, marks: seq<string> := [], [];
    values := [];
    for i := 0 to |data|
      invariant |fields| == |values| == |marks| == i
      invariant forall k :: 0 <= k < i ==> fields[k] == data[k].0 && values[k] == data[k].1 && marks[k] == "?"
    {
      fields := fields + [data[i].0];
      values := values + [data[i].1];
      marks := marks + ["?"];
    }
    var names := Concat(fields, ", ");
    var placeholders := Concat(marks, ", ");
    sql := "INSERT INTO " + table + " (" + names + ") VALUES (" + placeholders + ")";
    InsertText(table, fields, values, marks);
    if Marks(table) == 0 && forall i :: 0 <= i < |fields| ==> Marks(fields[i]) == 0 {
      InsertMeans(table, fields, values);
    }
    assert fields == seq(|data|, i requires 0 <= i < |data| => data[i].0);
    assert values == seq(|data|, i requires 0 <= i < |data| => data[i].1);
  }

  lemma InsertText(table: string, fields: seq<string>, vs: seq<Value>, marks: seq<string>)
    requires |marks| == |vs| && forall k :: 0 <= k < |marks| ==> marks[k] == "?"
    ensures Text(InsertPieces(table, fields, vs)) ==
      "INSERT INTO " + table + " (" + Join(fields, ", ") + ") VALUES (" + Join(marks, ", ") + ")"
    ensures Values(InsertPieces(table, fields, vs)) == vs
  {
    var head := Piece("INSERT INTO " + table + " (" + Join(fields, ", ") + ") VALUES (", []);
    var body, tail := Interleaved(MarkPieces(vs), ", "), Piece(")", []);
    assert Texts(MarkPieces(vs)) == marks;
    InterleavedIsJoin(MarkPieces(vs), ", ");
    MarkValues(vs);
    Splits([head] + body, [tail]);
    Splits([head], body);
    One(head);
    One(tail);
  }
}
