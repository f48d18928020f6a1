/**
 * Personalisation of a queued message (server/index.js:115) and the `from`
 * header it is sent with (server/index.js:119).
 *
 * The server writes `job.content.replace(/{name}/g, job.name)`. The pattern is
 * the literal six characters `{name}` (the braces are not a quantifier), the
 * `g` flag replaces every non-overlapping match from left to right, and the
 * replacement string is expanded the way `String.prototype.replace` expands
 * it: with no capture groups in the pattern, `$$`, `$&`, `` $` `` and `$'` are
 * special and every other `$` is kept literally.
 */
module Template {
  import opened Strings

  /** The placeholder the body template may contain. */
  const Token: string := "{name}"

  /** A match of the placeholder starts at the beginning of `s`. */
  predicate StartsWithToken(s: string)
  {
    && |s| >= 6
    && s[0] == '{' && s[1] == 'n' && s[2] == 'a' && s[3] == 'm' && s[4] == 'e' && s[5] == '}'
  }

  /** `s` holds the placeholder somewhere: a match starts at one of its positions. */
  predicate ContainsToken(s: string)
    decreases |s|
  {
    s != [] && (StartsWithToken(s) || ContainsToken(s[1..]))
  }

  /**
   * The replacement text for one match: `repl` with its `$` patterns expanded,
   * where `before` is the part of the body before the match and `after` the
   * part after it.
   */
  function Expand(repl: string, before: string, after: string): string
    decreases |repl|
  {
    if repl == [] then []
    else if repl[0] == '$' && |repl| >= 2 && repl[1] == '$' then "$" + Expand(repl[2..], before, after)
    else if repl[0] == '$' && |repl| >= 2 && repl[1] == '&' then Token + Expand(repl[2..], before, after)
    else if repl[0] == '$' && |repl| >= 2 && repl[1] == '`' then before + Expand(repl[2..], before, after)
    else if repl[0] == '$' && |repl| >= 2 && repl[1] == '\'' then after + Expand(repl[2..], before, after)
    else [repl[0]] + Expand(repl[1..], before, after)
  }

  /** Renders `rest`, the unread part of a body whose already-read part is `seen`. */
  function RenderFrom(seen: string, rest: string, name: string): string
    decreases |rest|
  {
    if StartsWithToken(rest) then
      Expand(name, seen, rest[|Token|..]) + RenderFrom(seen + Token, rest[|Token|..], name)
    else if rest == [] then []
    else [rest[0]] + RenderFrom(seen + [rest[0]], rest[1..], name)
  }

  /** `body.replace(/{name}/g, name)`. */
  function Render(body: string, name: string): string
  {
    RenderFrom([], body, name)
  }

  /** The `from` header: the display name in double quotes, then the address in angle brackets. */
  function FromHeader(senderName: string, senderEmail: string): (h: string)
    ensures |h| == |senderName| + |senderEmail| + 5
    ensures h[0] == '"' && h[1 + |senderName|] == '"' && h[|h| - 1] == '>'
    ensures h[1 + |senderName|..|senderName| + 4] == "\" <"
    ensures h[1..1 + |senderName|] == senderName
    ensures h[|senderName| + 4..|h| - 1] == senderEmail
  {
    "\"" + senderName + "\" <" + senderEmail + ">"
  }

  /** A replacement text without `$` is inserted as it is. */
  lemma {:induction false} ExpandPlain(repl: string, before: string, after: string)
    requires '$' !in repl
    ensures Expand(repl, before, after) == repl
    decreases |repl|
  {
    if repl != [] {
      assert '$' !in repl[1..];
      ExpandPlain(repl[1..], before, after);
    }
  }

  /**
   * The replacement patterns one at a time: `$$` gives `$`, `$&` the matched
   * placeholder, `` $` `` the text before the match and `$'` the text after it;
   * a `$` before any other character, or at the end, is kept as it is.
   */
  lemma ExpandDollar(c: char, r: string, before: string, after: string)
    ensures Expand("$$" + r, before, after) == "$" + Expand(r, before, after)
    ensures Expand("$&" + r, before, after) == Token + Expand(r, before, after)
    ensures Expand("$`" + r, before, after) == before + Expand(r, before, after)
    ensures Expand("$'" + r, before, after) == after + Expand(r, before, after)
    ensures c !in "$&`'" ==> Expand(['$', c] + r, before, after) == ['$', c] + Expand(r, before, after)
    ensures Expand("$", before, after) == "$"
  {
    assert ("$$" + r)[2..] == r;
    assert ("$&" + r)[2..] == r;
    assert ("$`" + r)[2..] == r;
    assert ("$'" + r)[2..] == r;
    if c !in "$&`'" {
      var s := ['$', c] + r;
      assert s[1..] == [c] + r && ([c] + r)[1..] == r;
    }
    assert "$"[1..] == [];
  }

  /** Only a string holding `{` can hold the placeholder. */
  lemma {:induction false} NoBraceNoToken(s: string)
    requires '{' !in s
    ensures !ContainsToken(s)
    decreases |s|
  {
    if s != [] {
      if |s| >= |Token| {
        assert s[..|Token|][0] == s[0];
      }
      assert '{' !in s[1..];
      NoBraceNoToken(s[1..]);
    }
  }

  /** A body without the placeholder is rendered unchanged, whatever the name. */
  lemma {:induction false} RenderFromNoToken(seen: string, rest: string, name: string)
    requires !ContainsToken(rest)
    ensures RenderFrom(seen, rest, name) == rest
    decreases |rest|
  {
    if rest != [] {
      RenderFromNoToken(seen + [rest[0]], rest[1..], name);
    }
  }

  lemma RenderNoToken(body: string, name: string)
    requires !ContainsToken(body)
    ensures Render(body, name) == body
  {
    RenderFromNoToken([], body, name);
  }

  /**
   * No match can start inside a placeholder-free `p` when a placeholder
   * follows it: `{` occurs in `{name}` only as its first character.
   */
  lemma NoMatchBeforeToken(p: string, r: string)
    requires p != [] && !ContainsToken(p)
    ensures !StartsWithToken(p + Token + r)
  {
    var s := p + Token + r;
    if |p| >= |Token| {
      assert s[..|Token|] == p[..|Token|];
    } else if |s| >= |Token| {
      assert s[..|Token|][|p|] == s[|p|] == '{';
      assert Token[|p|] != '{';
    }
  }

  /** Where no match starts, the character is copied and the scan moves one on. */
  lemma RenderFromCopies(seen: string, rest: string, name: string)
    requires rest != [] && !StartsWithToken(rest)
    ensures RenderFrom(seen, rest, name) == [rest[0]] + RenderFrom(seen + [rest[0]], rest[1..], name)
  {
  }

  /** Where a match starts, a `$`-free name replaces it and the scan moves past it. */
  lemma RenderFromToken(seen: string, r: string, name: string)
    requires '$' !in name
    ensures RenderFrom(seen, Token + r, name) == name + RenderFrom(seen + Token, r, name)
  {
    var s := Token + r;
    assert StartsWithToken(s) && s[|Token|..] == r;
    ExpandPlain(name, seen, r);
  }

  /** Before the placeholder, the first character of a placeholder-free `p` is copied. */
  lemma RenderFromStep(seen: string, p: string, r: string, name: string)
    requires p != [] && !ContainsToken(p)
    ensures !ContainsToken(p[1..])
    ensures RenderFrom(seen, p + Token + r, name) == [p[0]] + RenderFrom(seen + [p[0]], p[1..] + Token + r, name)
  {
    var s := p + Token + r;
    NoMatchBeforeToken(p, r);
    assert s[0] == p[0] && s[1..] == p[1..] + Token + r;
    RenderFromCopies(seen, s, name);
  }

  /** Rendering a placeholder-free prefix followed by one placeholder. */
  lemma {:induction false} RenderFromPrefix(seen: string, p: string, r: string, name: string)
    requires !ContainsToken(p) && '$' !in name
    ensures RenderFrom(seen, p + Token + r, name) == p + name + RenderFrom(seen + p + Token, r, name)
    decreases |p|
  {
    var rest := RenderFrom(seen + p + Token, r, name);
    if p == [] {
      assert p + Token + r == Token + r && seen + p + Token == seen + Token;
      RenderFromToken(seen, r, name);
    } else {
      var tail := RenderFrom(seen + [p[0]], p[1..] + Token + r, name);
      assert RenderFrom(seen, p + Token + r, name) == [p[0]] + tail by {
        RenderFromStep(seen, p, r, name);
      }
      HeadTail(p, seen, Token);
      HeadTail(p, name, rest);
      assert tail == p[1..] + name + rest by {
        RenderFromStep(seen, p, r, name);
        RenderFromPrefix(seen + [p[0]], p[1..], r, name);
      }
    }
  }

  /**
   * Every placeholder is replaced by the name: a body made of placeholder-free
   * parts separated by `{name}` renders to the same parts separated by the
   * name, provided the name holds no `$` pattern.
   */
  lemma {:induction false} RenderFromJoin(seen: string, parts: seq<string>, name: string)
    requires forall k :: 0 <= k < |parts| ==> !ContainsToken(parts[k])
    requires '$' !in name
    ensures RenderFrom(seen, JoinWith(parts, Token), name) == JoinWith(parts, name)
    decreases |parts|
  {
    if |parts| == 0 {
    } else if |parts| == 1 {
      RenderFromNoToken(seen, parts[0], name);
    } else {
      var tail := JoinWith(parts[1..], Token);
      RenderFromPrefix(seen, parts[0], tail, name);
      RenderFromJoin(seen + parts[0] + Token, parts[1..], name);
    }
  }

  lemma RenderJoin(parts: seq<string>, name: string)
    requires forall k :: 0 <= k < |parts| ==> !ContainsToken(parts[k])
    requires '$' !in name
    ensures Render(JoinWith(parts, Token), name) == JoinWith(parts, name)
  {
    RenderFromJoin([], parts, name);
  }

  /** The worked example: both placeholders are replaced, the rest is kept. */
  lemma RenderGreeting()
    ensures Render("Hi {name}, bye {name}", "Sam") == "Hi Sam, bye Sam"
  {
    var parts := ["Hi ", ", bye ", ""];
    NoBraceNoToken(parts[0]);
    NoBraceNoToken(parts[1]);
    NoBraceNoToken(parts[2]);
    assert JoinWith(parts, Token) == "Hi {name}, bye {name}";
    assert JoinWith(parts, "Sam") == "Hi Sam, bye Sam";
    RenderJoin(parts, "Sam");
  }

  /**
   * A name that is itself a replacement pattern is not inserted literally:
   * the name `$&` puts the matched placeholder back.
   */
  lemma RenderDollarAmpersand()
    ensures Render("Hi {name}", "$&") == "Hi {name}"
  {
    var s := "Hi {name}";
    assert !StartsWithToken(s);
    assert !StartsWithToken(s[1..]);
    assert !StartsWithToken(s[2..]);
    assert StartsWithToken(s[3..]);
    assert s[3..][|Token|..] == [];
  }

  /** The display name and the address are recovered from the header when the name holds no quote. */
  lemma FromHeaderInjective(n1: string, e1: string, n2: string, e2: string)
    requires '"' !in n1 && '"' !in n2
    requires FromHeader(n1, e1) == FromHeader(n2, e2)
    ensures n1 == n2 && e1 == e2
  {
    var h := FromHeader(n1, e1);
    if |n1| < |n2| {
      assert false;
    } else if |n2| < |n1| {
      assert false;
    }
  }
}
