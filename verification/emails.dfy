/** The email heuristic of correct_task2.py: a per-value predicate and a
    counter over an input list. */
module Emails {
  import opened PyValues
  import opened Counting

  // ---------------------------------------------------------------------
  // String primitives: str.strip(), str.count(c), str.split(c)
  // ---------------------------------------------------------------------

  /** The characters for which Python's `str.isspace()` holds; these are the
      characters `str.strip()` with no argument removes. */
  predicate IsWhitespace(c: char) {
    c == ' ' || ('\t' <= c <= '\r') || ('\U{1C}' <= c <= '\U{1F}')
    || c == '\U{85}' || c == '\U{A0}' || c == '\U{1680}'
    || ('\U{2000}' <= c <= '\U{200A}') || c == '\U{2028}' || c == '\U{2029}'
    || c == '\U{202F}' || c == '\U{205F}' || c == '\U{3000}'
  }

  /** `s.lstrip()`: drops the longest all-whitespace prefix. */
  function TrimStart(s: string): (t: string)
    ensures |t| <= |s|
  {
    if s != [] && IsWhitespace(s[0]) then TrimStart(s[1..]) else s
  }

  /** TrimStart keeps a suffix of s, removes only whitespace, and leaves a
      result that is empty or starts with a non-whitespace character. */
  lemma {:induction false} TrimStartSpec(s: string)
    ensures var t := TrimStart(s);
      t == s[|s| - |t|..]
      && (forall i :: 0 <= i < |s| - |t| ==> IsWhitespace(s[i]))
      && (t != [] ==> !IsWhitespace(t[0]))
    decreases |s|
  {
    if s != [] && IsWhitespace(s[0]) {
      TrimStartSpec(s[1..]);
    }
  }

  /** `s.rstrip()`: drops the longest all-whitespace suffix. */
  function TrimEnd(s: string): (t: string)
    ensures |t| <= |s|
  {
    if s != [] && IsWhitespace(s[|s| - 1]) then TrimEnd(s[..|s| - 1]) else s
  }

  /** TrimEnd keeps a prefix of s, removes only whitespace, and leaves a
      result that is empty or ends with a non-whitespace character. */
  lemma {:induction false} TrimEndSpec(s: string)
    ensures var t := TrimEnd(s);
      t == s[..|t|]
      && (forall i :: |t| <= i < |s| ==> IsWhitespace(s[i]))
      && (t != [] ==> !IsWhitespace(t[|t| - 1]))
    decreases |s|
  {
    if s != [] && IsWhitespace(s[|s| - 1]) {
      TrimEndSpec(s[..|s| - 1]);
    }
  }

  /** `s.strip()`. */
  function Strip(s: string): (t: string)
    ensures |t| <= |s|
  {
    TrimEnd(TrimStart(s))
  }

  /** The stripped text is s with leading and trailing whitespace removed:
      a slice of s that starts and ends with a non-whitespace character,
      and that is empty exactly when s is nothing but whitespace. */
  lemma StripSpec(s: string)
    ensures var t, a := Strip(s), |s| - |TrimStart(s)|;
      a + |t| <= |s| && t == s[a..a + |t|]
      && (forall i :: 0 <= i < a ==> IsWhitespace(s[i]))
      && (forall i :: a + |t| <= i < |s| ==> IsWhitespace(s[i]))
      && (t != [] ==> !IsWhitespace(t[0]) && !IsWhitespace(t[|t| - 1]))
      && (t == [] <==> forall i :: 0 <= i < |s| ==> IsWhitespace(s[i]))
  {
    var u := TrimStart(s);
    var t := TrimEnd(u);
    var a := |s| - |u|;
    TrimStartSpec(s);
    TrimEndSpec(u);
    assert u == s[a..];
    assert t == s[a..a + |t|];
    forall i | a + |t| <= i < |s|
      ensures IsWhitespace(s[i])
    {
      assert s[i] == u[i - a];
    }
    if t == [] {
      // a non-empty u starts with a character TrimEnd cannot remove
      assert u == [];
    }
  }

  /** Stripping twice is stripping once. */
  lemma StripIdempotent(s: string)
    ensures Strip(Strip(s)) == Strip(s)
  {
    var t := Strip(s);
    StripSpec(s);
    if t != [] {
      assert TrimStart(t) == t;
      assert TrimEnd(t) == t;
    }
  }

  /** `s.count(c)` for a one-character needle. */
  function Count(s: string, c: char): (n: nat)
    ensures n <= |s|
    ensures n == 0 <==> c !in s
  {
    if s == [] then 0
    else
      assert s == [s[0]] + s[1..];
      (if s[0] == c then 1 else 0) + Count(s[1..], c)
  }

  lemma {:induction false} CountAppend(a: string, b: string, c: char)
    ensures Count(a + b, c) == Count(a, c) + Count(b, c)
    decreases |a|
  {
    if a != [] {
      assert (a + b)[0] == a[0] && (a + b)[1..] == a[1..] + b;
      CountAppend(a[1..], b, c);
    } else {
      assert a + b == b;
    }
  }

  /** `s.split(sep)` for a one-character separator: one more part than
      there are separators, and no part contains the separator. */
  function Split(s: string, sep: char): (parts: seq<string>)
    ensures |parts| == Count(s, sep) + 1
    ensures forall k :: 0 <= k < |parts| ==> sep !in parts[k]
  {
    if s == [] then [[]]
    else
      var rest := Split(s[1..], sep);
      if s[0] == sep then [[]] + rest
      else [[s[0]] + rest[0]] + rest[1..]
  }

  /** `sep.join(parts)`, the inverse of Split. */
  function Join(parts: seq<string>, sep: char): string
    requires |parts| >= 1
  {
    if |parts| == 1 then parts[0] else parts[0] + [sep] + Join(parts[1..], sep)
  }

  /** Joining the parts of a split gives back the original string. */
  lemma {:induction false} JoinSplit(s: string, sep: char)
    ensures Join(Split(s, sep), sep) == s
    decreases |s|
  {
    if s != [] {
      var rest := Split(s[1..], sep);
      JoinSplit(s[1..], sep);
      if s[0] == sep {
        assert ([[]] + rest)[1..] == rest;
      } else if |rest| > 1 {
        assert ([[s[0]] + rest[0]] + rest[1..])[1..] == rest[1..];
      }
    }
  }

  /** A string without the separator splits into itself. */
  lemma SplitNoSeparator(s: string, sep: char)
    requires sep !in s
    ensures Split(s, sep) == [s]
  {
    JoinSplit(s, sep);
  }

  /** Splitting at the first separator. */
  lemma {:induction false} SplitAtFirst(a: string, b: string, sep: char)
    requires sep !in a
    ensures Split(a + [sep] + b, sep) == [a] + Split(b, sep)
    decreases |a|
  {
    if a != [] {
      assert (a + [sep] + b)[1..] == a[1..] + [sep] + b;
      SplitAtFirst(a[1..], b, sep);
      assert [a[0]] + a[1..] == a;
    }
  }

  /** Splitting a join of separator-free parts gives back the parts. */
  lemma {:induction false} SplitJoin(parts: seq<string>, sep: char)
    requires |parts| >= 1
    requires forall k :: 0 <= k < |parts| ==> sep !in parts[k]
    ensures Split(Join(parts, sep), sep) == parts
    decreases |parts|
  {
    if |parts| == 1 {
      SplitNoSeparator(parts[0], sep);
    } else {
      SplitAtFirst(parts[0], Join(parts[1..], sep), sep);
      SplitJoin(parts[1..], sep);
      assert [parts[0]] + parts[1..] == parts;
    }
  }

  // ---------------------------------------------------------------------
  // is_valid_email
  // ---------------------------------------------------------------------

  /** The heuristic check on one value, in the source's order: a non-empty
      string; non-empty once stripped; exactly one '@'; a non-empty local
      part; a non-empty domain holding a '.'; no space character. Only the
      space ' ' is refused in the last check, not every whitespace
      character. */
  function IsValidEmail(v: Value): (ok: bool)
    ensures !v.Str? || v.s == [] ==> !ok
    ensures ok ==> Count(Strip(v.s), '@') == 1
    ensures ok ==> var parts := Split(Strip(v.s), '@');
                   |parts| == 2 && parts[0] != [] && parts[1] != [] && '.' in parts[1]
    ensures ok ==> ' ' !in Strip(v.s)
  {
    if !v.Str? || v.s == [] then false
    else
      var email := Strip(v.s);
      if email == [] then false
      else if Count(email, '@') != 1 then false
      else
        var parts := Split(email, '@');
        var local := parts[0];
        var domain := parts[1];
        if local == [] then false
        else if domain == [] || '.' !in domain then false
        else if ' ' in email then false
        else true
  }

  /** Reference reading of the heuristic, without count or split: the '@'
      at position i is the only one, something precedes it, the text after
      it holds a '.', and there is no space anywhere. */
  predicate AddressAt(t: string, i: int) {
    0 <= i < |t| && t[i] == '@' && '@' !in t[..i] && '@' !in t[i + 1..]
    && t[..i] != [] && '.' in t[i + 1..] && ' ' !in t
  }

  ghost predicate IsAddress(t: string) {
    exists i :: AddressAt(t, i)
  }

  /** Position of the first occurrence of c. */
  function IndexOf(s: string, c: char): (k: nat)
    requires c in s
    ensures k < |s| && s[k] == c && c !in s[..k]
  {
    if s[0] == c then 0
    else
      assert s == [s[0]] + s[1..];
      var k := IndexOf(s[1..], c);
      assert s[..k + 1] == [s[0]] + s[1..][..k];
      k + 1
  }

  /** A string with exactly one separator, at position i, splits into the
      text before it and the text after it. */
  lemma SplitAtOnly(t: string, i: nat, sep: char)
    requires i < |t| && t[i] == sep && sep !in t[..i] && sep !in t[i + 1..]
    ensures Count(t, sep) == 1
    ensures Split(t, sep) == [t[..i], t[i + 1..]]
  {
    assert t == t[..i] + [sep] + t[i + 1..];
    CountAppend(t[..i] + [sep], t[i + 1..], sep);
    CountAppend(t[..i], [sep], sep);
    SplitAtFirst(t[..i], t[i + 1..], sep);
    SplitNoSeparator(t[i + 1..], sep);
  }

  /** IsValidEmail accepts a string exactly when its stripped form is an
      address in the reference sense. */
  lemma ValidEmailIffAddress(s: string)
    ensures IsValidEmail(Str(s)) <==> IsAddress(Strip(s))
  {
    var t := Strip(s);
    if IsValidEmail(Str(s)) {
      var i := IndexOf(t, '@');
      assert t == t[..i] + [t[i]] + t[i + 1..];
      CountAppend(t[..i] + [t[i]], t[i + 1..], '@');
      CountAppend(t[..i], [t[i]], '@');
      SplitAtOnly(t, i, '@');
      assert AddressAt(t, i);
    }
    if IsAddress(t) {
      var i :| AddressAt(t, i);
      SplitAtOnly(t, i, '@');
    }
  }

  /** Stripping before the check changes nothing. */
  lemma StripFirstChangesNothing(s: string)
    ensures IsValidEmail(Str(Strip(s))) == IsValidEmail(Str(s))
  {
    StripIdempotent(s);
  }

  /** Surrounding whitespace is stripped before the checks. */
  lemma AcceptsSurroundingWhitespace()
    ensures IsValidEmail(Str("  a@b.com  "))
  {
    var s := "  a@b.com  ";
    assert Strip(s) == "a@b.com" by {
      assert TrimStart(s) == "a@b.com  ";
      assert TrimEnd("a@b.com  ") == "a@b.com";
    }
    StripFirstChangesNothing(s);
    AcceptsFirstListExample();
  }

  /** An inner space is refused. */
  lemma RejectsInnerSpace()
    ensures !IsValidEmail(Str("a @b.com"))
  {
  }

  /** A doubled '@' is refused. */
  lemma RejectsTwoAts()
    ensures !IsValidEmail(Str("a@@b.com"))
  {
  }

  /** An empty local part is refused. */
  lemma RejectsEmptyLocal()
    ensures !IsValidEmail(Str("@b.com"))
  {
  }

  /** A domain without a dot is refused. */
  lemma RejectsDotlessDomain()
    ensures !IsValidEmail(Str("a@bcom"))
  {
  }

  /** Only ' ' is refused inside the address: an inner tab passes. */
  lemma AcceptsInnerTab()
    ensures IsValidEmail(Str("a\tb@c.com"))
  {
    var s := "a\tb@c.com";
    assert Strip(s) == s;
    assert AddressAt(s, 3);
    ValidEmailIffAddress(s);
  }

  // ---------------------------------------------------------------------
  // count_valid_emails
  // ---------------------------------------------------------------------

  /** The count the source promises for a whole argument: 0 for None and for
      a non-iterable value, the number of passing elements otherwise. */
  function ValidCount(emails: Input): nat {
    match emails
    case Items(xs) => CountWhere(xs, IsValidEmail)
    case _ => 0
  }

  /** `count_valid_emails`: returns 0 for None and for a non-iterable value;
      otherwise walks the list once, adding one per passing element. */
  method CountValidEmails(emails: Input) returns (count: nat)
    ensures !emails.Items? ==> count == 0
    ensures emails.Items? ==> count == |IndicesWhere(emails.elems, IsValidEmail)| <= |emails.elems|
    ensures count == ValidCount(emails)
  {
    if emails.Absent? {
      return 0;
    }
    if emails.NonIterable? {
      return 0;
    }
    var xs := emails.elems;
    count := 0;
    for i := 0 to |xs|
      invariant count == CountWhere(xs[..i], IsValidEmail)
    {
      assert xs[..i + 1][..i] == xs[..i];
      if IsValidEmail(xs[i]) {
        count := count + 1;
      }
    }
    assert xs[..|xs|] == xs;
    CountWhereIsCardinality(xs, IsValidEmail);
  }

  /** A string that strip() leaves alone and that is an address at i passes. */
  lemma AcceptsAddress(t: string, i: int)
    requires Strip(t) == t && AddressAt(t, i)
    ensures IsValidEmail(Str(t))
  {
    ValidEmailIffAddress(t);
  }

  /** The strings of the list example, one verdict each. */
  lemma AcceptsFirstListExample()
    ensures IsValidEmail(Str("a@b.com"))
  {
    assert Strip("a@b.com") == "a@b.com";
    AcceptsAddress("a@b.com", 1);
  }

  lemma AcceptsThirdListExample()
    ensures IsValidEmail(Str("x@y.co"))
  {
    assert Strip("x@y.co") == "x@y.co";
    AcceptsAddress("x@y.co", 1);
  }

  lemma RejectsSecondListExample()
    ensures !IsValidEmail(Str("bad"))
  {
  }

  /** The list example: two of the three strings pass. */
  lemma CountExample()
    ensures ValidCount(Items([Str("a@b.com"), Str("bad"), Str("x@y.co")])) == 2
    ensures ValidCount(Items([])) == 0
  {
    AcceptsFirstListExample();
    RejectsSecondListExample();
    AcceptsThirdListExample();
    CountThree(Str("a@b.com"), Str("bad"), Str("x@y.co"), IsValidEmail);
  }
}
