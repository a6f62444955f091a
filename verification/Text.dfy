/** The few operations of Go's `strings` package the modelled code relies on. */
module Text {
  import opened Wrappers

  /** `unicode.IsSpace`. */
  predicate IsSpace(c: char) {
    || '\t' <= c <= '\r' || c == ' '
    || c as int in {0x85, 0xA0, 0x1680, 0x2028, 0x2029, 0x202F, 0x205F, 0x3000}
    || 0x2000 <= c as int <= 0x200A
  }

  lemma SpacesAre(c: char)
    ensures IsSpace(c)
            <==> c as int in {9, 10, 11, 12, 13, 32, 0x85, 0xA0, 0x1680, 0x2000, 0x2001, 0x2002, 0x2003, 0x2004,
                              0x2005, 0x2006, 0x2007, 0x2008, 0x2009, 0x200A, 0x2028, 0x2029, 0x202F, 0x205F, 0x3000}
  {
  }

  function TrimLeft(s: string): (r: string)
    ensures |r| <= |s| && r == s[|s| - |r|..]
    ensures r != "" ==> !IsSpace(r[0])
    ensures forall i :: 0 <= i < |s| - |r| ==> IsSpace(s[i])
  {
    if s != "" && IsSpace(s[0]) then TrimLeft(s[1..]) else s
  }

  function TrimRight(s: string): (r: string)
    ensures |r| <= |s| && r == s[..|r|]
    ensures r != "" ==> !IsSpace(r[|r| - 1])
    ensures forall i :: |r| <= i < |s| ==> IsSpace(s[i])
  {
    if s != "" && IsSpace(s[|s| - 1]) then TrimRight(s[..|s| - 1]) else s
  }

  /** `strings.TrimSpace`. */
  function TrimSpace(s: string): string {
    TrimRight(TrimLeft(s))
  }

  predicate Trimmed(s: string) {
    s == "" || (!IsSpace(s[0]) && !IsSpace(s[|s| - 1]))
  }

  /** Trimming yields a trimmed string, and leaves a trimmed string alone. */
  lemma TrimSpaceTrims(s: string)
    ensures Trimmed(TrimSpace(s))
    ensures Trimmed(s) ==> TrimSpace(s) == s
  {
    var left := TrimLeft(s);
    if TrimSpace(s) != "" {
      assert TrimSpace(s)[0] == left[0];
    }
  }

  /** Only white space is trimmed: a string is blank exactly when nothing is left of it. */
  lemma TrimSpaceEmpty(s: string)
    ensures TrimSpace(s) == "" <==> forall i :: 0 <= i < |s| ==> IsSpace(s[i])
  {
    var left := TrimLeft(s);
    assert left != "" ==> left[0] == s[|s| - |left|];
  }

  lemma TrimKeepsOut(s: string, c: char)
    requires c !in s
    ensures c !in TrimSpace(s)
  {
    var left := TrimLeft(s);
    assert forall x :: x in left ==> x in s;
    assert forall x :: x in TrimRight(left) ==> x in left;
  }

  function LowerChar(c: char): char {
    if 'A' <= c <= 'Z' then c - 'A' + 'a' else c
  }

  function UpperChar(c: char): char {
    if 'a' <= c <= 'z' then c - 'a' + 'A' else c
  }

  /** `strings.ToLower`, on ASCII letters. */
  function Lower(s: string): (r: string)
    ensures |r| == |s| && forall i :: 0 <= i < |s| ==> r[i] == LowerChar(s[i])
  {
    seq(|s|, i requires 0 <= i < |s| => LowerChar(s[i]))
  }

  /** `strings.ToUpper`, on ASCII letters. */
  function Upper(s: string): (r: string)
    ensures |r| == |s| && forall i :: 0 <= i < |s| ==> r[i] == UpperChar(s[i])
  {
    seq(|s|, i requires 0 <= i < |s| => UpperChar(s[i]))
  }

  lemma LowerStaysTrimmed(s: string)
    ensures Trimmed(s) ==> Trimmed(Lower(s))
    ensures Lower(Lower(s)) == Lower(s)
  {
  }

  /** `strings.EqualFold`, on ASCII letters. */
  predicate EqualFold(a: string, b: string) {
    Lower(a) == Lower(b)
  }

  predicate HasPrefix(s: string, prefix: string) {
    prefix <= s
  }

  predicate HasSuffix(s: string, suffix: string) {
    |suffix| <= |s| && s[|s| - |suffix|..] == suffix
  }

  /** `strings.Contains`. */
  predicate Contains(s: string, sub: string) {
    sub <= s || (s != "" && Contains(s[1..], sub))
  }

  lemma {:induction false} ContainsPart(head: string, sub: string, tail: string)
    ensures Contains(head + sub + tail, sub)
  {
    var s := head + sub + tail;
    if head == "" {
      assert s == sub + tail;
    } else {
      ContainsPart(head[1..], sub, tail);
      assert s[1..] == head[1..] + sub + tail;
    }
  }

  lemma {:induction false} PartOf(s: string, sub: string) returns (head: string, tail: string)
    requires Contains(s, sub)
    ensures s == head + sub + tail
  {
    if sub <= s {
      head, tail := "", s[|sub|..];
    } else {
      head, tail := PartOf(s[1..], sub);
      head := [s[0]] + head;
    }
  }

  function TrimPrefix(s: string, prefix: string): string {
    if prefix <= s then s[|prefix|..] else s
  }

  /** `strings.IndexByte`. */
  function IndexOf(s: string, c: char): (r: Option<nat>)
    ensures r.None? <==> c !in s
    ensures r.Some? ==> r.value < |s| && s[r.value] == c && c !in s[..r.value]
  {
    if s == "" then None
    else if s[0] == c then Some(0)
    else
      match IndexOf(s[1..], c)
      case None => None
      case Some(i) => assert s[..i + 1] == [s[0]] + s[1..][..i]; Some(i + 1)
  }

  /** `strings.LastIndexByte`. */
  function LastIndexOf(s: string, c: char): (r: Option<nat>)
    ensures r.None? <==> c !in s
    ensures r.Some? ==> r.value < |s| && s[r.value] == c && c !in s[r.value + 1..]
  {
    if s == "" then None
    else if s[|s| - 1] == c then Some(|s| - 1)
    else
      var r := LastIndexOf(s[..|s| - 1], c);
      assert r.Some? ==> s[r.value + 1..] == s[..|s| - 1][r.value + 1..] + [s[|s| - 1]];
      r
  }

  /** The first separator of `head + [c] + tail` ends a `c`-free head. */
  lemma FirstIndex(head: string, c: char, tail: string)
    requires c !in head
    ensures IndexOf(head + [c] + tail, c) == Some(|head|)
  {
    var s := head + [c] + tail;
    assert s[|head|] == c && forall k :: 0 <= k < |head| ==> s[k] == head[k] && head[k] in head;
    var i := IndexOf(s, c).value;
    assert forall k :: 0 <= k < i ==> s[k] in s[..i];
  }

  /** The last separator of `head + [c] + tail` starts a `c`-free tail. */
  lemma {:induction false} LastIndex(head: string, c: char, tail: string)
    requires c !in tail
    ensures LastIndexOf(head + [c] + tail, c) == Some(|head|)
  {
    var s := head + [c] + tail;
    if tail != "" {
      assert tail[|tail| - 1] in tail;
      assert s[..|s| - 1] == head + [c] + tail[..|tail| - 1];
      LastIndex(head, c, tail[..|tail| - 1]);
    }
  }

  /** `strings.Split` on a one-character separator. */
  function Split(s: string, sep: char): (parts: seq<string>)
    ensures |parts| >= 1
  {
    match IndexOf(s, sep)
    case None => [s]
    case Some(i) => [s[..i]] + Split(s[i + 1..], sep)
  }

  /** `strings.Join` on a one-character separator. */
  function Join(parts: seq<string>, sep: char): string {
    if parts == [] then ""
    else if |parts| == 1 then parts[0]
    else parts[0] + [sep] + Join(parts[1..], sep)
  }

  /** Splitting undoes joining when no part holds the separator. */
  lemma {:induction false} SplitJoin(parts: seq<string>, sep: char)
    requires parts != []
    requires forall p :: p in parts ==> sep !in p
    ensures Split(Join(parts, sep), sep) == parts
  {
    if |parts| == 1 {
      assert parts == [parts[0]];
    } else {
      var rest := Join(parts[1..], sep);
      FirstIndex(parts[0], sep, rest);
      var s := parts[0] + [sep] + rest;
      assert s[..|parts[0]|] == parts[0] && s[|parts[0]| + 1..] == rest;
      SplitJoin(parts[1..], sep);
    }
  }

  lemma {:induction false} SplitHasNoSeparator(s: string, sep: char)
    ensures forall p :: p in Split(s, sep) ==> sep !in p
    decreases |s|
  {
    match IndexOf(s, sep)
    case None =>
    case Some(i) => SplitHasNoSeparator(s[i + 1..], sep);
  }

  lemma {:induction false} SplitKeepsChars(s: string, sep: char, c: char)
    requires c !in s
    ensures forall p :: p in Split(s, sep) ==> c !in p
    decreases |s|
  {
    match IndexOf(s, sep)
    case None => assert Split(s, sep) == [s];
    case Some(i) =>
      var rest := Split(s[i + 1..], sep);
      assert Split(s, sep) == [s[..i]] + rest;
      hide Split, IndexOf;
      assert c !in s[..i] && c !in s[i + 1..];
      SplitKeepsChars(s[i + 1..], sep, c);
      assert forall p :: p in [s[..i]] + rest ==> p == s[..i] || p in rest;
  }

  /** Joining undoes splitting. */
  lemma {:induction false} JoinSplit(s: string, sep: char)
    ensures Join(Split(s, sep), sep) == s
    decreases |s|
  {
    match IndexOf(s, sep)
    case None =>
    case Some(i) =>
      var tail := Split(s[i + 1..], sep);
      JoinSplit(s[i + 1..], sep);
      assert ([s[..i]] + tail)[1..] == tail;
      assert s == s[..i] + [sep] + s[i + 1..];
  }

  lemma {:induction false} JoinAppend(a: seq<string>, b: seq<string>, sep: char)
    requires a != [] && b != []
    ensures Join(a + b, sep) == Join(a, sep) + [sep] + Join(b, sep)
  {
    if |a| == 1 {
      assert (a + b)[1..] == b;
    } else {
      assert (a + b)[1..] == a[1..] + b;
      JoinAppend(a[1..], b, sep);
      assert a[0] + [sep] + (Join(a[1..], sep) + [sep] + Join(b, sep))
             == (a[0] + [sep] + Join(a[1..], sep)) + [sep] + Join(b, sep);
    }
  }
}
