/** The field checks a memo's title and content must pass before the store
    changes, and the whitespace trimming applied to both before they are stored. */
module Validation {

  /** Longest title accepted, counted on the raw (untrimmed) input. */
  const MaxTitleLength: nat := 100
  /** Longest content accepted, counted on the raw (untrimmed) input. */
  const MaxContentLength: nat := 2000

  /** A request-body field as it arrives after JSON parsing: absent (or null),
      present with some other JSON type, or a string. */
  datatype Field = Missing | NotString | Text(s: string)

  /** The four validation errors, in the order the chain tests them. */
  datatype Failure = TitleRequired | TitleTooLong | ContentRequired | ContentTooLong

  /** Outcome of the check chain: the raw strings when both pass, otherwise the first failure. */
  datatype Verdict = Accepted(title: string, content: string) | Rejected(failure: Failure)

  /** The characters a string trim strips: the ECMAScript WhiteSpace and
      LineTerminator code points (tab, vertical tab, form feed, space, no-break
      space, byte order mark, the Unicode space separators, LF, CR, LS, PS). */
  predicate IsWhitespace(c: char): (b: bool)
    ensures c == ' ' || c == '\t' || c == '\n' || c == '\r' ==> b
    ensures 0x21 <= c as int <= 0x7E ==> !b
  {
    c as int in WhitespaceCodes
  }

  /** The code points of `IsWhitespace`. */
  const WhitespaceCodes: set<int> :=
    {0x09, 0x0A, 0x0B, 0x0C, 0x0D, 0x20, 0xA0, 0x1680,
     0x2000, 0x2001, 0x2002, 0x2003, 0x2004, 0x2005, 0x2006, 0x2007, 0x2008, 0x2009, 0x200A,
     0x2028, 0x2029, 0x202F, 0x205F, 0x3000, 0xFEFF}

  /** Every character of `s` is whitespace (vacuously true of the empty string). */
  predicate Blank(s: string)
  {
    forall k :: 0 <= k < |s| ==> IsWhitespace(s[k])
  }

  /** `s` neither starts nor ends with whitespace. */
  predicate IsTrimmed(s: string)
  {
    s == [] || (!IsWhitespace(s[0]) && !IsWhitespace(s[|s| - 1]))
  }

  /** `s` without its leading whitespace: a suffix of `s` (see `TrimStartIsSuffix`)
      that does not start with whitespace. */
  function TrimStart(s: string): (r: string)
    ensures |r| <= |s|
    ensures r != [] ==> !IsWhitespace(r[0])
  {
    if s != [] && IsWhitespace(s[0]) then TrimStart(s[1..]) else s
  }

  /** `s` without its trailing whitespace: a prefix of `s` (see `TrimEndIsPrefix`)
      that does not end with whitespace. */
  function TrimEnd(s: string): (r: string)
    ensures |r| <= |s|
    ensures r != [] ==> !IsWhitespace(r[|r| - 1])
  {
    if s != [] && IsWhitespace(s[|s| - 1]) then TrimEnd(s[..|s| - 1]) else s
  }

  /** String trim: `s` with leading and trailing whitespace removed (the leading run
      by `TrimStart`, then the trailing run by `TrimEnd`). The result is trimmed and
      no longer than `s`. */
  function Trim(s: string): (r: string)
    ensures |r| <= |s|
    ensures IsTrimmed(r)
  {
    var t := TrimStart(s);
    TrimEndIsPrefix(t);
    TrimEnd(t)
  }

  /** `TrimStart` only removes characters from the front. */
  lemma {:induction false} TrimStartIsSuffix(s: string)
    ensures TrimStart(s) == s[|s| - |TrimStart(s)|..]
  {
    if s != [] && IsWhitespace(s[0]) {
      TrimStartIsSuffix(s[1..]);
    }
  }

  /** `TrimEnd` only removes characters from the back. */
  lemma {:induction false} TrimEndIsPrefix(s: string)
    ensures TrimEnd(s) == s[..|TrimEnd(s)|]
  {
    if s != [] && IsWhitespace(s[|s| - 1]) {
      TrimEndIsPrefix(s[..|s| - 1]);
    }
  }

  /** Everything `TrimStart` drops is whitespace, so it drops the longest such prefix. */
  lemma {:induction false} TrimStartDropsWhitespace(s: string)
    ensures forall k :: 0 <= k < |s| - |TrimStart(s)| ==> IsWhitespace(s[k])
  {
    if s != [] && IsWhitespace(s[0]) {
      TrimStartDropsWhitespace(s[1..]);
      forall k | 1 <= k < |s| - |TrimStart(s)| ensures IsWhitespace(s[k]) {
        assert s[k] == s[1..][k - 1];
      }
    }
  }

  /** Everything `TrimEnd` drops is whitespace, so it drops the longest such suffix. */
  lemma {:induction false} TrimEndDropsWhitespace(s: string)
    ensures forall k :: |TrimEnd(s)| <= k < |s| ==> IsWhitespace(s[k])
  {
    if s != [] && IsWhitespace(s[|s| - 1]) {
      TrimEndDropsWhitespace(s[..|s| - 1]);
      forall k | |TrimEnd(s)| <= k < |s| - 1 ensures IsWhitespace(s[k]) {
        assert s[k] == s[..|s| - 1][k];
      }
    }
  }

  /** Trim gives the empty string exactly when `s` is blank (whitespace only or empty). */
  lemma {:induction false} TrimEmptyIffBlank(s: string)
    ensures Trim(s) == [] <==> Blank(s)
  {
    var t := TrimStart(s);
    var lead := |s| - |t|;
    TrimStartIsSuffix(s);
    TrimStartDropsWhitespace(s);
    TrimEndDropsWhitespace(t);
    if Trim(s) == [] {
      forall k | lead <= k < |s| ensures IsWhitespace(s[k]) {
        assert s[k] == t[k - lead];
      }
    }
    if t != [] {
      assert t[0] == s[lead];
    }
  }

  /** A field passes its "required" check: it is a string with some non-whitespace character. */
  predicate Supplied(f: Field)
  {
    f.Text? && !Blank(f.s)
  }

  /** A field passes both of its checks for the given length limit. */
  predicate FieldOk(f: Field, max: nat)
  {
    Supplied(f) && |f.s| <= max
  }

  /** The validation chain used by both create and update: title required, title
      length, content required, content length, and the first check that fails
      decides the verdict. */
  function Validate(title: Field, content: Field): (v: Verdict)
    ensures v.Accepted? ==> title == Text(v.title) && content == Text(v.content)
    ensures v.Accepted? ==> |v.title| <= MaxTitleLength && |v.content| <= MaxContentLength
  {
    if !title.Text? || |Trim(title.s)| == 0 then Rejected(TitleRequired)
    else if |title.s| > MaxTitleLength then Rejected(TitleTooLong)
    else if !content.Text? || |Trim(content.s)| == 0 then Rejected(ContentRequired)
    else if |content.s| > MaxContentLength then Rejected(ContentTooLong)
    else Accepted(title.s, content.s)
  }

  /** What the chain decides, check by check: each failure is reported exactly when
      every earlier check passed and its own did not; "required" means present, a
      string, and not whitespace only; the limits apply to the raw string and are
      inclusive; both fields are accepted, unchanged, exactly when all four pass. */
  lemma {:induction false} FirstFailureWins(title: Field, content: Field)
    ensures var v := Validate(title, content);
            && (v == Rejected(TitleRequired) <==> !Supplied(title))
            && (v == Rejected(TitleTooLong) <==> Supplied(title) && |title.s| > MaxTitleLength)
            && (v == Rejected(ContentRequired) <==>
                  FieldOk(title, MaxTitleLength) && !Supplied(content))
            && (v == Rejected(ContentTooLong) <==>
                  FieldOk(title, MaxTitleLength) && Supplied(content) && |content.s| > MaxContentLength)
            && (v.Accepted? <==> FieldOk(title, MaxTitleLength) && FieldOk(content, MaxContentLength))
            && (v.Accepted? ==> title == Text(v.title) && content == Text(v.content))
  {
    if title.Text? {
      TrimEmptyIffBlank(title.s);
    }
    if content.Text? {
      TrimEmptyIffBlank(content.s);
    }
  }

  /** Trimming leaves a string unchanged exactly when it is already trimmed; in
      particular trimming twice is the same as trimming once. */
  lemma {:induction false} TrimFixesExactlyTrimmed(s: string)
    ensures Trim(s) == s <==> IsTrimmed(s)
    ensures Trim(Trim(s)) == Trim(s)
  {
    if IsTrimmed(s) && s != [] {
      assert TrimStart(s) == s;
      assert TrimEnd(s) == s;
    }
    var r := Trim(s);
    if r != [] {
      assert TrimStart(r) == r;
      assert TrimEnd(r) == r;
    }
  }

  /** A value that passed the chain trims to a string that is non-empty, trimmed
      and still within the limit, which is what the store keeps. */
  lemma {:induction false} AcceptedTrimsWithinLimits(title: Field, content: Field)
    requires Validate(title, content).Accepted?
    ensures var v := Validate(title, content);
            Trim(v.title) != [] && IsTrimmed(Trim(v.title)) && |Trim(v.title)| <= MaxTitleLength &&
            Trim(v.content) != [] && IsTrimmed(Trim(v.content)) && |Trim(v.content)| <= MaxContentLength
  {
    FirstFailureWins(title, content);
  }

  /** The length limits are inclusive and measured before trimming: a title of
      exactly 100 characters (or content of exactly 2000) passes its length check,
      one more character fails it, even when the extra character is whitespace. */
  lemma {:induction false} LimitsAreInclusive(title: string, content: string)
    requires !Blank(title) && !Blank(content)
    ensures Validate(Text(title), Text(content)) != Rejected(TitleTooLong) <==> |title| <= 100
    ensures |title| <= 100 ==>
              (Validate(Text(title), Text(content)) != Rejected(ContentTooLong) <==> |content| <= 2000)
    ensures |title| <= 100 ==>
              (Validate(Text(title + " "), Text(content)) == Rejected(TitleTooLong) <==> |title| == 100)
  {
    var k :| 0 <= k < |title| && !IsWhitespace(title[k]);
    assert (title + " ")[k] == title[k];
    FirstFailureWins(Text(title), Text(content));
    FirstFailureWins(Text(title + " "), Text(content));
  }

  /** Concrete cases: an empty title, a whitespace-only title and a title that is
      not a string are all "title required", whatever the content. */
  lemma {:induction false} RequiredExamples()
    ensures Validate(Text(""), Text("C")) == Rejected(TitleRequired)
    ensures Validate(Text(" \t\n"), Missing) == Rejected(TitleRequired)
    ensures Validate(NotString, Text("C")) == Rejected(TitleRequired)
    ensures Validate(Text("T"), Text("")) == Rejected(ContentRequired)
  {
    assert IsWhitespace(" \t\n"[0]) && IsWhitespace(" \t\n"[1]) && IsWhitespace(" \t\n"[2]);
    assert !IsWhitespace("T"[0]);
  }

  /** Concrete cases: a 101-character title is too long (even when the content is
      empty too), and so is 2001-character content under a good title. */
  lemma {:induction false} TooLongExamples()
    ensures Validate(Text(seq(101, _ => 'A')), Text("valid")) == Rejected(TitleTooLong)
    ensures Validate(Text(seq(101, _ => 'A')), Text("")) == Rejected(TitleTooLong)
    ensures Validate(Text("ok"), Text(seq(2001, _ => 'B'))) == Rejected(ContentTooLong)
  {
    assert !IsWhitespace(seq(101, _ => 'A')[0]);
    assert !IsWhitespace("ok"[0]);
    assert !IsWhitespace(seq(2001, _ => 'B')[0]);
  }

  /** Concrete case: surrounding spaces are what trimming removes. */
  lemma {:induction false} TrimExample()
    ensures Trim(" Hello ") == "Hello"
  {
    TrimStripsOneEachSide(" Hello ");
    assert " Hello "[1..6] == "Hello";
  }

  /** Concrete case: surrounding spaces do not stop a title or content from being accepted. */
  lemma {:induction false} PaddedExample()
    ensures Validate(Text(" Hello "), Text(" World ")) == Accepted(" Hello ", " World ")
  {
    assert !IsWhitespace(" Hello "[1]) && !IsWhitespace(" World "[1]);
  }

  /** A string with exactly one whitespace character at each end trims to its middle. */
  lemma {:induction false} TrimStripsOneEachSide(p: string)
    requires |p| >= 3 && IsWhitespace(p[0]) && IsWhitespace(p[|p| - 1])
    requires !IsWhitespace(p[1]) && !IsWhitespace(p[|p| - 2])
    ensures Trim(p) == p[1..|p| - 1]
  {
    assert TrimStart(p[1..]) == p[1..];
    assert TrimStart(p) == p[1..];
    var m := p[1..][..|p| - 2];
    assert TrimEnd(m) == m;
    assert TrimEnd(p[1..]) == m;
  }
}
