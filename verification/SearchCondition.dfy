/**
 Search conditions as token lists, parsed by the precedence of section 8.12 of SQL-92
 (NOT binds tighter than AND, AND tighter than OR) and valued in three-valued logic.
*/
module SearchCondition {
  import opened Common

  datatype Token = Open | Close | AndWord | OrWord | NotWord | Atom(text: string)

  datatype Condition = Test(text: string) | Negation(c: Condition) | Both(l: Condition, r: Condition)
    | Either(l: Condition, r: Condition)

  datatype Truth = True | False | Unknown

  function Value(c: Condition, atoms: string -> Truth): Truth {
    match c
    case Test(text) => atoms(text)
    case Negation(d) => Opposite(Value(d, atoms))
    case Both(l, r) => Conjunction(Value(l, atoms), Value(r, atoms))
    case Either(l, r) => Disjunction(Value(l, atoms), Value(r, atoms))
  }

  function Opposite(x: Truth): Truth {
    match x case True => False case False => True case Unknown => Unknown
  }

  function Disjunction(x: Truth, y: Truth): Truth {
    if x == True || y == True then True else if x == False && y == False then False else Unknown
  }

  function Conjunction(x: Truth, y: Truth): Truth {
    if x == False || y == False then False else if x == True && y == True then True else Unknown
  }

  // ---- Parsing; each function returns the tokens it leaves ----

  function ParseOr(ts: seq<Token>): (r: Option<(Condition, seq<Token>)>)
    ensures r.Some? ==> |r.value.1| < |ts|
    decreases |ts|, 3
  {
    match ParseAnd(ts)
    case None => None
    case Some((c, rest)) =>
      if |rest| > 0 && rest[0] == OrWord then
        match ParseOr(rest[1..])
        case None => None
        case Some((d, rest')) => Some((Either(c, d), rest'))
      else Some((c, rest))
  }

  function ParseAnd(ts: seq<Token>): (r: Option<(Condition, seq<Token>)>)
    ensures r.Some? ==> |r.value.1| < |ts|
    decreases |ts|, 2
  {
    match ParseNot(ts)
    case None => None
    case Some((c, rest)) =>
      if |rest| > 0 && rest[0] == AndWord then
        match ParseAnd(rest[1..])
        case None => None
        case Some((d, rest')) => Some((Both(c, d), rest'))
      else Some((c, rest))
  }

  function ParseNot(ts: seq<Token>): (r: Option<(Condition, seq<Token>)>)
    ensures r.Some? ==> |r.value.1| < |ts|
    decreases |ts|, 1
  {
    if |ts| > 0 && ts[0] == NotWord then
      match ParsePrimary(ts[1..])
      case None => None
      case Some((c, rest)) => Some((Negation(c), rest))
    else ParsePrimary(ts)
  }

  function ParsePrimary(ts: seq<Token>): (r: Option<(Condition, seq<Token>)>)
    ensures r.Some? ==> |r.value.1| < |ts|
    decreases |ts|, 0
  {
    if |ts| == 0 then None
    else if ts[0].Atom? then Some((Test(ts[0].text), ts[1..]))
    else if ts[0] == Open then
      match ParseOr(ts[1..])
      case None => None
      case Some((c, rest)) => if |rest| > 0 && rest[0] == Close then Some((c, rest[1..])) else None
    else None
  }

  /** The condition a whole token list denotes, if it is well formed. */
  function Parse(ts: seq<Token>): Option<Condition> {
    match ParseOr(ts)
    case None => None
    case Some((c, rest)) => if rest == [] then Some(c) else None
  }

  // ---- Parsing stops at an unmatched closing parenthesis ----

  lemma {:induction false} OrStopsAtClose(ts: seq<Token>, suffix: seq<Token>)
    requires ParseOr(ts).Some? && |suffix| > 0 && suffix[0] == Close
    ensures ParseOr(ts + suffix) == Some((ParseOr(ts).value.0, ParseOr(ts).value.1 + suffix))
    decreases |ts|, 3
  {
    AndStopsAtClose(ts, suffix);
    var (c, rest) := ParseAnd(ts).value;
    if |rest| > 0 && rest[0] == OrWord {
      OrStopsAtClose(rest[1..], suffix);
      assert (rest + suffix)[1..] == rest[1..] + suffix;
    }
  }

  lemma {:induction false} AndStopsAtClose(ts: seq<Token>, suffix: seq<Token>)
    requires ParseAnd(ts).Some? && |suffix| > 0 && suffix[0] == Close
    ensures ParseAnd(ts + suffix) == Some((ParseAnd(ts).value.0, ParseAnd(ts).value.1 + suffix))
    decreases |ts|, 2
  {
    NotStopsAtClose(ts, suffix);
    var (c, rest) := ParseNot(ts).value;
    if |rest| > 0 && rest[0] == AndWord {
      AndStopsAtClose(rest[1..], suffix);
      assert (rest + suffix)[1..] == rest[1..] + suffix;
    }
  }

  lemma {:induction false} NotStopsAtClose(ts: seq<Token>, suffix: seq<Token>)
    requires ParseNot(ts).Some? && |suffix| > 0 && suffix[0] == Close
    ensures ParseNot(ts + suffix) == Some((ParseNot(ts).value.0, ParseNot(ts).value.1 + suffix))
    decreases |ts|, 1
  {
    assert |ts| > 0;
    if ts[0] == NotWord {
      assert (ts + suffix)[1..] == ts[1..] + suffix;
      PrimaryStopsAtClose(ts[1..], suffix);
    } else {
      PrimaryStopsAtClose(ts, suffix);
    }
  }

  lemma {:induction false} PrimaryStopsAtClose(ts: seq<Token>, suffix: seq<Token>)
    requires ParsePrimary(ts).Some? && |suffix| > 0 && suffix[0] == Close
    ensures ParsePrimary(ts + suffix) == Some((ParsePrimary(ts).value.0, ParsePrimary(ts).value.1 + suffix))
    decreases |ts|, 0
  {
    assert (ts + suffix)[1..] == ts[1..] + suffix;
    if ts[0] == Open {
      OrStopsAtClose(ts[1..], suffix);
      var (c, rest) := ParseOr(ts[1..]).value;
      assert (rest + suffix)[1..] == rest[1..] + suffix;
    }
  }

  function Parenthesized(ts: seq<Token>): seq<Token> {
    [Open] + ts + [Close]
  }

  /** A parenthesized well-formed condition is one operand, whatever follows it. */
  lemma ParenthesizedOperand(ts: seq<Token>, rest: seq<Token>)
    requires Parse(ts).Some?
    ensures ParseNot(Parenthesized(ts) + rest) == Some((Parse(ts).value, rest))
  {
    OrStopsAtClose(ts, [Close] + rest);
    var all := Parenthesized(ts) + rest;
    assert all[1..] == ts + ([Close] + rest);
    assert ([] + ([Close] + rest))[1..] == rest;
    assert ParseOr(ts).value.1 + ([Close] + rest) == [Close] + rest;
  }

  // ---- The three truth values are ordered, and every condition can be written down ----

  function Rank(t: Truth): nat {
    match t case False => 0 case Unknown => 1 case True => 2
  }

  /** AND takes the lesser truth value, OR the greater, and NOT turns the order round. */
  lemma ThreeValued(c: Condition, d: Condition, atoms: string -> Truth)
    ensures var (x, y) := (Rank(Value(c, atoms)), Rank(Value(d, atoms)));
            && Rank(Value(Both(c, d), atoms)) == (if x <= y then x else y)
            && Rank(Value(Either(c, d), atoms)) == (if x <= y then y else x)
            && Rank(Value(Negation(c), atoms)) == 2 - x
  {
    RanksExactly(Value(c, atoms), Value(d, atoms));
    hide Rank, Conjunction, Disjunction, Opposite;
  }

  lemma RanksExactly(x: Truth, y: Truth)
    ensures Rank(Conjunction(x, y)) == (if Rank(x) <= Rank(y) then Rank(x) else Rank(y))
    ensures Rank(Disjunction(x, y)) == (if Rank(x) <= Rank(y) then Rank(y) else Rank(x))
    ensures Rank(Opposite(x)) == 2 - Rank(x)
  {
  }

  /** A condition with every operand in parentheses. */
  function Written(c: Condition): seq<Token> {
    match c
    case Test(text) => [Atom(text)]
    case Negation(d) => [NotWord] + Parenthesized(Written(d))
    case Both(l, r) => Parenthesized(Written(l)) + [AndWord] + Parenthesized(Written(r))
    case Either(l, r) => Parenthesized(Written(l)) + [OrWord] + Parenthesized(Written(r))
  }

  lemma {:induction false} WrittenParses(c: Condition)
    ensures Parse(Written(c)) == Some(c)
  {
    match c
    case Test(text) =>
      OneTest(text);
    case Negation(d) =>
      WrittenParses(d);
      NegatedOperand(Written(d), []);
      assert [NotWord] + Parenthesized(Written(d)) + [] == Written(c);
      OneOperand(Written(c));
    case Both(l, r) =>
      WrittenParses(l);
      WrittenParses(r);
      OperandsParse(Written(l), AndWord, Written(r));
    case Either(l, r) =>
      WrittenParses(l);
      WrittenParses(r);
      OperandsParse(Written(l), OrWord, Written(r));
  }

  lemma NegatedOperand(ts: seq<Token>, rest: seq<Token>)
    requires Parse(ts).Some?
    ensures ParseNot([NotWord] + Parenthesized(ts) + rest) == Some((Negation(Parse(ts).value), rest))
  {
    ParenthesizedOperand(ts, rest);
    assert ([NotWord] + Parenthesized(ts) + rest)[1..] == Parenthesized(ts) + rest;
  }

  /** Two operands and the word between them. */
  lemma OperandsParse(ts: seq<Token>, word: Token, us: seq<Token>)
    requires Parse(ts).Some? && Parse(us).Some? && word in {AndWord, OrWord}
    ensures var (c, d) := (Parse(ts).value, Parse(us).value);
            Parse(Parenthesized(ts) + [word] + Parenthesized(us)) ==
            Some(if word == AndWord then Both(c, d) else Either(c, d))
  {
    var all := Parenthesized(ts) + ([word] + Parenthesized(us));
    assert all == Parenthesized(ts) + [word] + Parenthesized(us);
    ParenthesizedOperand(ts, [word] + Parenthesized(us));
    ParenthesizedOperand(us, []);
    var y := Parenthesized(us);
    assert ([word] + y)[1..] == y && y + [] == y;
    assert ParseAnd(y) == Some((Parse(us).value, []));
    OneOperand(y);
    if word == AndWord {
      assert ParseAnd(all) == Some((Both(Parse(ts).value, Parse(us).value), []));
    } else {
      assert ParseAnd(all) == Some((Parse(ts).value, [OrWord] + y));
    }
    assert ParseOr(all).Some?;
  }

  lemma OneTest(text: string)
    ensures Parse([Atom(text)]) == Some(Test(text))
  {
    assert ParseNot([Atom(text)]) == Some((Test(text), []));
    OneOperand([Atom(text)]);
  }

  lemma OneOperand(ts: seq<Token>)
    requires ParseNot(ts).Some? && ParseNot(ts).value.1 == []
    ensures ParseAnd(ts) == ParseNot(ts) && ParseOr(ts) == ParseNot(ts) && Parse(ts) == Some(ParseNot(ts).value.0)
  {
    assert ParseAnd(ts) == ParseNot(ts);
    assert ParseOr(ts) == ParseNot(ts);
  }

  /** OR binds weaker than AND on either side of it, and NOT stronger than both. */
  lemma Precedence(ts: seq<Token>, us: seq<Token>, vs: seq<Token>)
    requires Parse(ts).Some? && Parse(us).Some? && Parse(vs).Some?
    ensures var (c, d, e) := (Parse(ts).value, Parse(us).value, Parse(vs).value);
            && Parse(Parenthesized(ts) + [OrWord] + Parenthesized(us) + [AndWord] + Parenthesized(vs)) ==
               Some(Either(c, Both(d, e)))
            && Parse(Parenthesized(ts) + [AndWord] + Parenthesized(us) + [OrWord] + Parenthesized(vs)) ==
               Some(Either(Both(c, d), e))
            && Parse([NotWord] + Parenthesized(ts) + [AndWord] + Parenthesized(us)) == Some(Both(Negation(c), d))
  {
    var (x, y, z) := (Parenthesized(ts), Parenthesized(us), Parenthesized(vs));
    var (c, d, e) := (Parse(ts).value, Parse(us).value, Parse(vs).value);
    assert ParseNot(z) == Some((e, [])) by { ThreeOperands(ts, OrWord, us, AndWord, vs); }
    OneOperand(z);
    assert Parse(x + [OrWord] + y + [AndWord] + z) == Some(Either(c, Both(d, e))) by {
      ThreeOperands(ts, OrWord, us, AndWord, vs);
      assert ParseAnd(y + [AndWord] + z) == Some((Both(d, e), []));
      assert ParseOr(y + [AndWord] + z) == Some((Both(d, e), []));
      assert ParseAnd(x + [OrWord] + y + [AndWord] + z) == Some((c, [OrWord] + y + [AndWord] + z));
    }
    assert Parse(x + [AndWord] + y + [OrWord] + z) == Some(Either(Both(c, d), e)) by {
      ThreeOperands(ts, AndWord, us, OrWord, vs);
      assert ParseAnd(y + [OrWord] + z) == Some((d, [OrWord] + z));
      assert ParseAnd(x + [AndWord] + y + [OrWord] + z) == Some((Both(c, d), [OrWord] + z));
    }
    assert Parse([NotWord] + x + [AndWord] + y) == Some(Both(Negation(c), d)) by {
      NegatedOperand(ts, [AndWord] + y);
      ParenthesizedOperand(us, []);
      assert [NotWord] + x + [AndWord] + y == [NotWord] + x + ([AndWord] + y);
      assert ([AndWord] + y)[1..] == y && y + [] == y;
      OneOperand(y);
      assert ParseAnd([NotWord] + x + [AndWord] + y) == Some((Both(Negation(c), d), []));
      assert ParseOr([NotWord] + x + [AndWord] + y).Some?;
    }
  }

  lemma ThreeOperands(ts: seq<Token>, v: Token, us: seq<Token>, w: Token, vs: seq<Token>)
    requires Parse(ts).Some? && Parse(us).Some? && Parse(vs).Some?
    ensures var (x, y, z) := (Parenthesized(ts), Parenthesized(us), Parenthesized(vs));
            && ParseNot(x + [v] + y + [w] + z) == Some((Parse(ts).value, [v] + y + [w] + z))
            && ([v] + y + [w] + z)[1..] == y + [w] + z && ([w] + z)[1..] == z
            && ParseNot(y + [w] + z) == Some((Parse(us).value, [w] + z))
            && ParseNot(z) == Some((Parse(vs).value, []))
  {
    var (x, y, z) := (Parenthesized(ts), Parenthesized(us), Parenthesized(vs));
    ParenthesizedOperand(ts, [v] + y + [w] + z);
    ParenthesizedOperand(us, [w] + z);
    ParenthesizedOperand(vs, []);
    assert x + [v] + y + [w] + z == x + ([v] + y + [w] + z);
    assert y + [w] + z == y + ([w] + z) && z + [] == z;
  }
}
