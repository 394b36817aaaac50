/** The text JSON.stringify gives for an object whose values are strings; different objects give different texts. */
module JsonText {

  type Props = seq<(string, string)>

  function HexDigit(n: nat): char
    requires n < 16
  {
    "0123456789abcdef"[n]
  }

  function EscapeChar(c: char): string {
    if c == '"' then "\\\""
    else if c == '\\' then "\\\\"
    else if c == '\U{0008}' then "\\b"
    else if c == '\t' then "\\t"
    else if c == '\n' then "\\n"
    else if c == '\U{000C}' then "\\f"
    else if c == '\r' then "\\r"
    else if c < ' ' then "\\u00" + [HexDigit(c as int / 16), HexDigit(c as int % 16)]
    else [c]
  }

  function Escape(s: string): string {
    if s == "" then "" else EscapeChar(s[0]) + Escape(s[1..])
  }

  function Quote(s: string): string {
    "\"" + Escape(s) + "\""
  }

  function Member(p: (string, string)): string {
    Quote(p.0) + ":" + Quote(p.1)
  }

  function RestOfObject(props: Props): string {
    if props == [] then "}" else "," + Member(props[0]) + RestOfObject(props[1..])
  }

  // Properties are printed in the order the object holds them.
  function Stringify(props: Props): string {
    if props == [] then "{}" else "{" + Member(props[0]) + RestOfObject(props[1..])
  }

  lemma HexDigitInjective(m: nat, n: nat)
    requires m < 16 && n < 16 && HexDigit(m) == HexDigit(n)
    ensures m == n
  {
  }

  lemma EscapedCharEnds(c: char, d: char, u: string, v: string)
    requires EscapeChar(c) + u == EscapeChar(d) + v
    ensures c == d && u == v
  {
    var s, t := EscapeChar(c) + u, EscapeChar(d) + v;
    assert s[0] == EscapeChar(c)[0] && t[0] == EscapeChar(d)[0];
    if s[0] == '\\' {
      assert s[1] == EscapeChar(c)[1] && t[1] == EscapeChar(d)[1];
      if s[1] == 'u' {
        assert s[4] == HexDigit(c as int / 16) && s[5] == HexDigit(c as int % 16);
        assert t[4] == HexDigit(d as int / 16) && t[5] == HexDigit(d as int % 16);
        HexDigitInjective(c as int / 16, d as int / 16);
        HexDigitInjective(c as int % 16, d as int % 16);
      }
    }
    assert c == d;
    assert s[|EscapeChar(c)|..] == u && t[|EscapeChar(d)|..] == v;
  }

  lemma EscapeSplit(a: string, x: string)
    requires a != ""
    ensures Escape(a) + "\"" + x == EscapeChar(a[0]) + (Escape(a[1..]) + "\"" + x)
    ensures (Escape(a) + "\"" + x)[0] != '"'
  {
    assert EscapeChar(a[0])[0] != '"';
    hide EscapeChar;
    Regroup(EscapeChar(a[0]) + Escape(a[1..]), "\"", x);
    Regroup(EscapeChar(a[0]), Escape(a[1..]), "\"" + x);
    Regroup(Escape(a[1..]), "\"", x);
  }

  lemma {:induction false} EscapedEnds(a: string, b: string, x: string, y: string)
    requires Escape(a) + "\"" + x == Escape(b) + "\"" + y
    ensures a == b && x == y
  {
    if a != "" { EscapeSplit(a, x); }
    if b != "" { EscapeSplit(b, y); }
    if a == "" || b == "" {
      assert "" + "\"" + x == ['"'] + x && "" + "\"" + y == ['"'] + y;
      DropFirst('"', x, y);
    } else {
      hide Escape, EscapeChar;
      EscapedCharEnds(a[0], b[0], Escape(a[1..]) + "\"" + x, Escape(b[1..]) + "\"" + y);
      EscapedEnds(a[1..], b[1..], x, y);
      assert a == [a[0]] + a[1..] && b == [b[0]] + b[1..];
    }
  }

  lemma QuoteEnds(a: string, b: string, x: string, y: string)
    requires Quote(a) + x == Quote(b) + y
    ensures a == b && x == y
  {
    var s, t := Quote(a) + x, Quote(b) + y;
    assert s[1..] == Escape(a) + "\"" + x && t[1..] == Escape(b) + "\"" + y;
    EscapedEnds(a, b, x, y);
  }

  lemma Regroup(a: string, b: string, c: string)
    ensures a + b + c == a + (b + c)
  {
  }

  lemma MemberEnds(p: (string, string), q: (string, string), x: string, y: string)
    requires Member(p) + x == Member(q) + y
    ensures p == q && x == y
  {
    hide Quote;
    MemberSplit(p, x);
    MemberSplit(q, y);
    QuoteEnds(p.0, q.0, ":" + (Quote(p.1) + x), ":" + (Quote(q.1) + y));
    DropFirst(':', Quote(p.1) + x, Quote(q.1) + y);
    QuoteEnds(p.1, q.1, x, y);
  }

  lemma MemberSplit(p: (string, string), x: string)
    ensures Member(p) + x == Quote(p.0) + (":" + (Quote(p.1) + x))
    ensures Member(p)[0] == '"'
  {
    var a, b := Quote(p.0), Quote(p.1);
    assert a[0] == '"';
    hide Quote;
    Regroup(a + ":", b, x);
    Regroup(a, ":", b + x);
  }

  lemma DropFirst(c: char, x: string, y: string)
    requires [c] + x == [c] + y
    ensures x == y
  {
    assert ([c] + x)[1..] == x && ([c] + y)[1..] == y;
  }

  lemma {:induction false} RestInjective(p: Props, q: Props)
    requires RestOfObject(p) == RestOfObject(q)
    ensures p == q
  {
    hide Member;
    assert RestOfObject(p)[0] == RestOfObject(q)[0];
    if p != [] && q != [] {
      RestSplit(p);
      RestSplit(q);
      FirstMember(p, q, ',');
      RestInjective(p[1..], q[1..]);
      assert p == [p[0]] + p[1..] && q == [q[0]] + q[1..];
    }
  }

  lemma RestSplit(p: Props)
    requires p != []
    ensures RestOfObject(p) == [','] + (Member(p[0]) + RestOfObject(p[1..]))
  {
    hide Member;
    Regroup([','], Member(p[0]), RestOfObject(p[1..]));
  }

  lemma FirstMember(p: Props, q: Props, c: char)
    requires p != [] && q != []
    requires [c] + (Member(p[0]) + RestOfObject(p[1..])) == [c] + (Member(q[0]) + RestOfObject(q[1..]))
    ensures p[0] == q[0] && RestOfObject(p[1..]) == RestOfObject(q[1..])
  {
    hide Member, RestOfObject;
    DropFirst(c, Member(p[0]) + RestOfObject(p[1..]), Member(q[0]) + RestOfObject(q[1..]));
    MemberEnds(p[0], q[0], RestOfObject(p[1..]), RestOfObject(q[1..]));
  }

  predicate Plain(c: char) {
    c >= ' ' && c != '"' && c != '\\'
  }

  // Text without quotes, backslashes and control characters is printed as it is.
  lemma {:induction false} PlainTextUnchanged(s: string)
    requires forall i | 0 <= i < |s| :: Plain(s[i])
    ensures Escape(s) == s
  {
    if s != "" {
      forall i | 0 <= i < |s[1..]| ensures Plain(s[1..][i]) { assert s[1..][i] == s[i + 1]; }
      PlainTextUnchanged(s[1..]);
      assert s == [s[0]] + s[1..];
    }
  }

  // Two objects print alike only if they hold the same properties in the same order.
  lemma StringifyInjective(p: Props, q: Props)
    requires Stringify(p) == Stringify(q)
    ensures p == q
  {
    StringifySplit(p);
    StringifySplit(q);
    hide Member, RestOfObject, Stringify;
    assert Stringify(p)[1] == Stringify(q)[1];
    if p != [] && q != [] {
      FirstMember(p, q, '{');
      RestInjective(p[1..], q[1..]);
      assert p == [p[0]] + p[1..] && q == [q[0]] + q[1..];
    }
  }

  lemma StringifySplit(p: Props)
    ensures |Stringify(p)| >= 2
    ensures if p == [] then Stringify(p)[1] == '}'
      else Stringify(p) == ['{'] + (Member(p[0]) + RestOfObject(p[1..])) && Stringify(p)[1] == '"'
  {
    if p != [] {
      MemberSplit(p[0], "");
      hide Member, RestOfObject;
      Regroup(['{'], Member(p[0]), RestOfObject(p[1..]));
    }
  }
}
