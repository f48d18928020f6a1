/**
 * The checks `handleSend` makes before posting a batch
 * (client/client/src/App.jsx:25-59): the comma-separated address and name
 * fields are split, trimmed and cleared of empty entries (lines 29-30), the
 * form is refused for missing credentials (line 32) and then for an empty or
 * unequal pair of lists (line 37), and the payload of lines 44-52 is built.
 */
module ClientForm {
  import opened Wrappers
  import opened Strings

  /** The characters `String.prototype.trim` removes: white space and line terminators. */
  predicate IsSpace(c: char)
  {
    || c == '\t' || c == '\n' || c == '\U{000B}' || c == '\U{000C}' || c == '\r' || c == ' '
    || c == '\U{00A0}' || c == '\U{1680}' || ('\U{2000}' <= c <= '\U{200A}')
    || c == '\U{2028}' || c == '\U{2029}' || c == '\U{202F}' || c == '\U{205F}'
    || c == '\U{3000}' || c == '\U{FEFF}'
  }

  /** Neither end of `s` is white space. */
  predicate Trimmed(s: string)
  {
    s == [] || (!IsSpace(s[0]) && !IsSpace(s[|s| - 1]))
  }

  /** `s.split(sep)`: the pieces between separators, empty ones included. */
  function Split(s: string, sep: char): (parts: seq<string>)
    ensures |parts| >= 1
    ensures forall k :: 0 <= k < |parts| ==> sep !in parts[k]
    decreases |s|
  {
    if s == [] then [[]]
    else
      var rest := Split(s[1..], sep);
      if s[0] == sep then [[]] + rest
      else [[s[0]] + rest[0]] + rest[1..]
  }

  /** How many white-space characters `s` starts with. */
  function LeadingSpace(s: string): (n: nat)
    ensures n <= |s|
    ensures forall i :: 0 <= i < n ==> IsSpace(s[i])
    ensures n < |s| ==> !IsSpace(s[n])
    decreases |s|
  {
    if s != [] && IsSpace(s[0]) then 1 + LeadingSpace(s[1..]) else 0
  }

  /** Where the white space that `s` ends with begins. */
  function TrailingSpace(s: string): (n: nat)
    ensures n <= |s|
    ensures forall i :: n <= i < |s| ==> IsSpace(s[i])
    ensures 0 < n ==> !IsSpace(s[n - 1])
    decreases |s|
  {
    if s != [] && IsSpace(s[|s| - 1]) then TrailingSpace(s[..|s| - 1]) else |s|
  }

  /**
   * `s.trim()`: the stretch of `s` between its leading and its trailing white
   * space; nothing when `s` is all white space.
   */
  function Trim(s: string): (r: string)
    ensures Trimmed(r)
  {
    var a := LeadingSpace(s);
    var b := TrailingSpace(s);
    if a < b then s[a..b] else []
  }

  /**
   * What `Trim` removes is white space, from the two ends only: the result is
   * the stretch of `s` that starts after the leading white space, and every
   * character of `s` before or after that stretch is white space.
   */
  lemma TrimIsMiddle(s: string)
    ensures var a := LeadingSpace(s); var r := Trim(s);
      && a + |r| <= |s| && r == s[a..a + |r|]
      && (forall i :: 0 <= i < a ==> IsSpace(s[i]))
      && (forall i :: a + |r| <= i < |s| ==> IsSpace(s[i]))
  {
  }

  /** Trimming adds no character: a piece without commas trims to one without commas. */
  lemma TrimKeepsOut(s: string, c: char)
    requires c !in s
    ensures c !in Trim(s)
  {
    var a := LeadingSpace(s);
    TrimIsMiddle(s);
    assert Trim(s) == s[a..a + |Trim(s)|];
  }

  /** `parts.map(e => e.trim())`. */
  function TrimAll(parts: seq<string>): (r: seq<string>)
    ensures |r| == |parts| && forall k :: 0 <= k < |r| ==> r[k] == Trim(parts[k])
  {
    seq(|parts|, k requires 0 <= k < |parts| => Trim(parts[k]))
  }

  /** `parts.filter(e => e)`: the non-empty entries, in order. */
  function DropEmpty(parts: seq<string>): (r: seq<string>)
    ensures forall k :: 0 <= k < |r| ==> r[k] != [] && r[k] in parts
    ensures forall e :: e in parts && e != [] ==> e in r
    ensures (forall k :: 0 <= k < |parts| ==> parts[k] != []) ==> r == parts
    decreases |parts|
  {
    if parts == [] then []
    else if parts[0] == [] then DropEmpty(parts[1..])
    else [parts[0]] + DropEmpty(parts[1..])
  }

  /** Filtering a concatenation filters each part: the kept entries stay in order, each kept once. */
  lemma {:induction false} DropEmptyAppend(a: seq<string>, b: seq<string>)
    ensures DropEmpty(a + b) == DropEmpty(a) + DropEmpty(b)
    decreases |a|
  {
    if a == [] {
      assert a + b == b;
    } else {
      assert (a + b)[1..] == a[1..] + b;
      DropEmptyAppend(a[1..], b);
    }
  }

  /** A single entry is kept exactly when it is non-empty. */
  lemma DropEmptySingle(e: string)
    ensures DropEmpty([e]) == if e == [] then [] else [e]
  {
  }

  /** The list a comma-separated field becomes (lines 29-30). */
  function ParseList(field: string): seq<string>
  {
    DropEmpty(TrimAll(Split(field, ',')))
  }

  /** The text between two separators is given back whole. */
  lemma {:induction false} SplitJoin(s: string, sep: char)
    ensures JoinWith(Split(s, sep), [sep]) == s
    decreases |s|
  {
    if s != [] {
      var rest := Split(s[1..], sep);
      SplitJoin(s[1..], sep);
      if s[0] == sep {
        assert Split(s, sep) == [[]] + rest;
        assert ([[]] + rest)[1..] == rest;
        assert s == [sep] + s[1..];
      } else if |rest| == 1 {
        assert s == [s[0]] + s[1..];
      } else {
        var parts := Split(s, sep);
        assert parts[1..] == rest[1..];
        assert JoinWith(rest, [sep]) == rest[0] + [sep] + JoinWith(rest[1..], [sep]);
        assert s == [s[0]] + s[1..];
      }
    }
  }

  lemma {:induction false} SplitPrefix(p: string, sep: char, t: string)
    requires sep !in p
    ensures Split(p + [sep] + t, sep) == [p] + Split(t, sep)
    decreases |p|
  {
    var s := p + [sep] + t;
    if p == [] {
      assert s == [sep] + t && s[1..] == t;
    } else {
      assert s[1..] == p[1..] + [sep] + t;
      SplitPrefix(p[1..], sep, t);
      assert [p[0]] + p[1..] == p;
    }
  }

  lemma {:induction false} SplitNoSep(p: string, sep: char)
    requires sep !in p
    ensures Split(p, sep) == [p]
    decreases |p|
  {
    if p != [] {
      SplitNoSep(p[1..], sep);
      assert [p[0]] + p[1..] == p;
    }
  }

  /** Splitting undoes joining, for at least one piece and no separator inside a piece. */
  lemma {:induction false} JoinSplit(parts: seq<string>, sep: char)
    requires |parts| >= 1
    requires forall k :: 0 <= k < |parts| ==> sep !in parts[k]
    ensures Split(JoinWith(parts, [sep]), sep) == parts
    decreases |parts|
  {
    if |parts| == 1 {
      SplitNoSep(parts[0], sep);
    } else {
      JoinSplit(parts[1..], sep);
      SplitPrefix(parts[0], sep, JoinWith(parts[1..], [sep]));
    }
  }

  /** Every parsed entry is non-empty, trimmed, and free of commas. */
  lemma ParseListClean(field: string)
    ensures forall k :: 0 <= k < |ParseList(field)| ==>
      ParseList(field)[k] != [] && Trimmed(ParseList(field)[k]) && ',' !in ParseList(field)[k]
  {
    var pieces := Split(field, ',');
    var trimmed := TrimAll(pieces);
    forall k | 0 <= k < |trimmed| ensures ',' !in trimmed[k] {
      TrimKeepsOut(pieces[k], ',');
    }
    var r := ParseList(field);
    forall k | 0 <= k < |r| ensures Trimmed(r[k]) && ',' !in r[k] {
      var j :| 0 <= j < |trimmed| && trimmed[j] == r[k];
    }
  }

  /** Trimming an entry that is already trimmed changes nothing. */
  lemma TrimTrimmed(s: string)
    requires Trimmed(s)
    ensures Trim(s) == s
  {
  }

  lemma TrimAllTrimmed(parts: seq<string>)
    requires forall k :: 0 <= k < |parts| ==> Trimmed(parts[k])
    ensures TrimAll(parts) == parts
  {
    forall k | 0 <= k < |parts| ensures Trim(parts[k]) == parts[k] {
      TrimTrimmed(parts[k]);
    }
  }

  /** An empty field gives no entries. */
  lemma ParseEmptyField()
    ensures ParseList("") == []
  {
    assert Split([], ',') == [[]];
    assert TrimAll([[]]) == [[]];
  }

  /** Parsing a field written as clean entries joined by commas gives the entries back. */
  lemma ParseRoundTrip(entries: seq<string>)
    requires forall k :: 0 <= k < |entries| ==> entries[k] != [] && Trimmed(entries[k]) && ',' !in entries[k]
    ensures ParseList(JoinWith(entries, ",")) == entries
  {
    if entries == [] {
      ParseEmptyField();
    } else {
      JoinSplit(entries, ',');
      TrimAllTrimmed(entries);
    }
  }

  lemma TrimPadded(s: string)
    requires Trimmed(s)
    ensures Trim(" " + s) == s
  {
    var t := " " + s;
    assert t[1..] == s;
    assert LeadingSpace(t) == 1;
    if s != [] {
      assert t[..|t| - 1][1..] == s[..|s| - 1];
    }
  }

  /** Spaces around the commas are ignored: ", " separates entries as "," does. */
  lemma ParseSpacedList(first: string, second: string)
    requires first != [] && Trimmed(first) && ',' !in first
    requires second != [] && Trimmed(second) && ',' !in second
    ensures ParseList(first + ", " + second) == [first, second]
  {
    var pieces := [first, " " + second];
    assert JoinWith(pieces, ",") == first + ", " + second;
    assert ',' !in " " + second;
    JoinSplit(pieces, ',');
    TrimTrimmed(first);
    TrimPadded(second);
    assert TrimAll(pieces) == [first, second];
  }

  // ---------------------------------------------------------------------
  // handleSend
  // ---------------------------------------------------------------------

  /** The form's state when the button is pressed (lines 10-21). */
  datatype Form = Form(
    senderEmail: string,
    appPassword: string,
    emailStr: string,
    nameStr: string,
    subject: string,
    content: string,
    scheduledTime: string)

  /** The body posted to `/send-email` (lines 44-52); `None` is `null`. */
  datatype Payload = Payload(
    senderEmail: string,
    appPassword: string,
    emails: seq<string>,
    names: seq<string>,
    subject: string,
    content: string,
    scheduledTime: Option<string>)

  /** The two warnings the form shows instead of posting. */
  datatype FormError = MissingCredentials | CountMismatchOrEmpty

  function HandleSend(form: Form): Result<Payload, FormError>
  {
    var emails := ParseList(form.emailStr);
    var names := ParseList(form.nameStr);
    if form.senderEmail == "" || form.appPassword == "" then Failure(MissingCredentials)
    else if |emails| == 0 || |emails| != |names| then Failure(CountMismatchOrEmpty)
    else Success(Payload(form.senderEmail, form.appPassword, emails, names, form.subject, form.content,
                         if form.scheduledTime == "" then None else Some(form.scheduledTime)))
  }

  /**
   * The form is refused for missing credentials whatever the lists hold, and
   * otherwise for an empty address list or unequal list lengths.
   */
  lemma HandleSendRejects(form: Form)
    ensures HandleSend(form) == Failure(MissingCredentials) <==> form.senderEmail == "" || form.appPassword == ""
    ensures HandleSend(form) == Failure(CountMismatchOrEmpty)
        <==> form.senderEmail != "" && form.appPassword != ""
             && (|ParseList(form.emailStr)| == 0 || |ParseList(form.emailStr)| != |ParseList(form.nameStr)|)
  {
  }

  /**
   * A posted payload carries both credentials, two lists of the same non-zero
   * length whose entries are non-empty and trimmed, the subject and content
   * as typed, and `null` for an empty schedule field.
   */
  lemma HandleSendPayload(form: Form)
    requires HandleSend(form).Success?
    ensures var p := HandleSend(form).value;
      && p.senderEmail == form.senderEmail != "" && p.appPassword == form.appPassword != ""
      && p.emails == ParseList(form.emailStr) && p.names == ParseList(form.nameStr)
      && |p.emails| == |p.names| > 0
      && (forall k :: 0 <= k < |p.emails| ==> p.emails[k] != [] && Trimmed(p.emails[k]) && ',' !in p.emails[k])
      && (forall k :: 0 <= k < |p.names| ==> p.names[k] != [] && Trimmed(p.names[k]) && ',' !in p.names[k])
      && p.subject == form.subject && p.content == form.content
      && (p.scheduledTime == None <==> form.scheduledTime == "")
      && (p.scheduledTime.Some? ==> p.scheduledTime.value == form.scheduledTime)
  {
    ParseListClean(form.emailStr);
    ParseListClean(form.nameStr);
  }
}
