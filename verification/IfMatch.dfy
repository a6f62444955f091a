/** The If-Match precondition of section 13.1.1 of RFC 9110, as the REST handlers evaluate it. */
module IfMatch {
  import opened Text
  import Decimal

  function TrimQuotesLeft(s: string): string {
    if s != "" && s[0] == '"' then TrimQuotesLeft(s[1..]) else s
  }

  function TrimQuotesRight(s: string): string {
    if s != "" && s[|s| - 1] == '"' then TrimQuotesRight(s[..|s| - 1]) else s
  }

  function TrimQuotes(s: string): string {
    TrimQuotesRight(TrimQuotesLeft(s))
  }

  /** What is left of a list member: no white space, no weak marker, no quotes. */
  function TagText(token: string): string {
    TrimQuotes(TrimPrefix(TrimSpace(token), "W/"))
  }

  predicate Names(text: string, revision: nat) {
    text == "*" || text == Decimal.Render(revision)
  }

  predicate Satisfied(header: string, revision: nat) {
    var h := TrimSpace(header);
    h == "" || exists token :: token in Split(h, ',') && Names(TagText(token), revision)
  }

  method IfMatchSatisfied(header: string, revision: nat) returns (ok: bool)
    ensures ok == Satisfied(header, revision)
  {
    hide TrimSpace, Split, TrimQuotes, TrimPrefix;
    var h := TrimSpace(header);
    if h == "" {
      return true;
    }
    var want := Decimal.Render(revision);
    var tokens := Split(h, ',');
    for i := 0 to |tokens|
      invariant forall k :: 0 <= k < i ==> !Names(TagText(tokens[k]), revision)
    {
      var tok := TrimSpace(tokens[i]);
      tok := TrimPrefix(tok, "W/");
      tok := TrimQuotes(tok);
      if tok == "*" || tok == want {
        assert tokens[i] in tokens && Names(TagText(tokens[i]), revision);
        return true;
      }
    }
    return false;
  }

  // What a header means

  /** An entity tag as a client writes it, with white space around it; a quoted one may hold commas. */
  datatype Tag = Tag(before: string, weak: bool, quoted: bool, text: string, after: string)

  predicate Blank(s: string) {
    forall i :: 0 <= i < |s| ==> IsSpace(s[i])
  }

  ghost predicate Valid(t: Tag) {
    && Blank(t.before) && Blank(t.after) && '"' !in t.text
    && (t.quoted || (',' !in t.text && Trimmed(t.text) && (!t.weak ==> !HasPrefix(t.text, "W/"))))
  }

  function Core(t: Tag): string {
    (if t.weak then "W/" else "") + if t.quoted then "\"" + t.text + "\"" else t.text
  }

  function Written(t: Tag): string {
    t.before + Core(t) + t.after
  }

  function AllWritten(tags: seq<Tag>): seq<string> {
    seq(|tags|, i requires 0 <= i < |tags| => Written(tags[i]))
  }

  lemma {:induction false} TrimLeftBlank(blank: string, rest: string)
    requires Blank(blank)
    ensures TrimLeft(blank + rest) == TrimLeft(rest)
  {
    if blank == "" {
      assert blank + rest == rest;
    } else {
      assert (blank + rest)[1..] == blank[1..] + rest;
      TrimLeftBlank(blank[1..], rest);
    }
  }

  lemma {:induction false} TrimRightBlank(rest: string, blank: string)
    requires Blank(blank)
    ensures TrimRight(rest + blank) == TrimRight(rest)
  {
    if blank == "" {
      assert rest + blank == rest;
    } else {
      assert (rest + blank)[..|rest| + |blank| - 1] == rest + blank[..|blank| - 1];
      TrimRightBlank(rest, blank[..|blank| - 1]);
    }
  }

  lemma TrimmedStart(core: string, after: string)
    requires Trimmed(core) && core != ""
    ensures TrimLeft(core + after) == core + after
  {
  }

  lemma LeftOfPadded(before: string, core: string, after: string)
    requires Blank(before) && Blank(after) && Trimmed(core)
    ensures TrimLeft(before + core + after) == if core == "" then "" else core + after
  {
    hide TrimLeft, Blank, Trimmed;
    assert before + core + after == before + (core + after);
    TrimLeftBlank(before, core + after);
    if core == "" {
      assert core + after == after + "";
      TrimLeftBlank(after, "");
    } else {
      TrimmedStart(core, after);
    }
  }

  lemma TrimmedStays(core: string)
    requires Trimmed(core)
    ensures TrimRight(core) == core
  {
  }

  /** Trimming takes away the white space written around a tag and nothing else. */
  lemma TrimPadded(before: string, core: string, after: string)
    requires Blank(before) && Blank(after) && Trimmed(core)
    ensures TrimSpace(before + core + after) == core
  {
    hide TrimLeft, TrimRight, Blank;
    LeftOfPadded(before, core, after);
    TrimmedStays(core);
    if core != "" {
      TrimRightBlank(core, after);
    }
  }

  lemma {:induction false} TrimQuotesPlain(text: string)
    requires '"' !in text
    ensures TrimQuotes(text) == text && TrimQuotes("\"" + text + "\"") == text
  {
    var q := "\"" + text + "\"";
    assert text != "" ==> text[0] in text && text[|text| - 1] in text;
    assert q[1..] == text + "\"";
    var left := text + "\"";
    assert TrimQuotesLeft(q) == TrimQuotesLeft(left);
    if text == "" {
      assert left[1..] == "";
    } else {
      assert left[0] == text[0] && left[..|text|] == text;
    }
  }

  lemma TagTextOfTag(t: Tag)
    requires Valid(t)
    ensures TagText(Written(t)) == t.text
  {
    hide TrimQuotes, TrimSpace;
    var core := Core(t);
    var inner := if t.quoted then "\"" + t.text + "\"" else t.text;
    CoreIsTrimmed(t);
    TrimPadded(t.before, core, t.after);
    assert t.weak ==> core[2..] == inner;
    assert !t.weak ==> core == inner;
    TrimQuotesPlain(t.text);
  }

  // White space at the ends of the whole header

  lemma {:induction false} TrimLeftStops(s: string, rest: string)
    requires rest != "" && !IsSpace(rest[0])
    ensures TrimLeft(s + rest) == TrimLeft(s) + rest
  {
    if s == "" {
      assert s + rest == rest;
    } else {
      assert (s + rest)[1..] == s[1..] + rest;
      TrimLeftStops(s[1..], rest);
    }
  }

  lemma {:induction false} TrimRightStops(head: string, s: string)
    requires head != "" && !IsSpace(head[|head| - 1])
    ensures TrimRight(head + s) == head + TrimRight(s)
  {
    if s == "" {
      assert head + s == head;
    } else {
      assert (head + s)[..|head| + |s| - 1] == head + s[..|s| - 1];
      TrimRightStops(head, s[..|s| - 1]);
    }
  }

  lemma TrimLeftJoin(parts: seq<string>)
    requires parts != []
    ensures TrimLeft(Join(parts, ',')) == Join(parts[0 := TrimLeft(parts[0])], ',')
  {
    hide TrimLeft;
    if |parts| > 1 {
      var rest := [','] + Join(parts[1..], ',');
      assert parts[0] + [','] + Join(parts[1..], ',') == parts[0] + rest;
      TrimLeftStops(parts[0], rest);
      assert parts[0 := TrimLeft(parts[0])][1..] == parts[1..];
    }
  }

  lemma {:induction false} TrimRightJoin(parts: seq<string>)
    requires parts != []
    ensures TrimRight(Join(parts, ',')) == Join(parts[|parts| - 1 := TrimRight(parts[|parts| - 1])], ',')
  {
    hide TrimRight;
    if |parts| > 1 {
      TrimRightJoin(parts[1..]);
      TrimRightStops(parts[0] + [','], Join(parts[1..], ','));
      var n := |parts| - 1;
      assert parts[n := TrimRight(parts[n])][1..] == parts[1..][n - 1 := TrimRight(parts[n])];
    }
  }

  lemma RightOfPadded(before: string, core: string, after: string)
    requires Blank(before) && Blank(after) && Trimmed(core)
    ensures TrimRight(before + core + after) == if core == "" then "" else before + core
  {
    TrimRightBlank(before + core, after);
    if core == "" {
      assert before + core == "" + before;
      TrimRightBlank("", before);
    }
  }

  lemma CoreIsTrimmed(t: Tag)
    requires Valid(t)
    ensures Trimmed(Core(t))
  {
    var core := Core(t);
    var inner := if t.quoted then "\"" + t.text + "\"" else t.text;
    assert t.weak ==> core[|core| - 1] == (if |inner| > 0 then inner[|inner| - 1] else '/');
  }

  lemma LeftCut(p: string) returns (b: string)
    ensures Blank(b) && p == b + TrimLeft(p)
  {
    hide TrimLeft;
    b := p[..|p| - |TrimLeft(p)|];
  }

  lemma RightCut(p: string) returns (a: string)
    ensures Blank(a) && p == TrimRight(p) + a
  {
    hide TrimRight;
    a := p[|TrimRight(p)|..];
  }

  lemma TrimDecomposes(p: string) returns (b: string, a: string)
    ensures Blank(b) && Blank(a) && Trimmed(TrimSpace(p)) && p == b + TrimSpace(p) + a
  {
    TrimSpaceTrims(p);
    hide TrimLeft, TrimRight, Trimmed, Blank;
    b := LeftCut(p);
    a := RightCut(TrimLeft(p));
    assert b + (TrimSpace(p) + a) == b + TrimSpace(p) + a;
  }

  lemma NothingTrims()
    ensures TrimSpace("") == ""
  {
  }

  lemma CoreThenBlank(core: string, a: string)
    requires Blank(a) && Trimmed(core) && core != ""
    ensures TrimSpace(core + a) == core
  {
    hide TrimLeft, TrimRight, Blank, Trimmed;
    TrimmedStart(core, a);
    TrimRightBlank(core, a);
    TrimmedStays(core);
  }

  lemma BlankThenCore(b: string, core: string)
    requires Blank(b) && Trimmed(core) && core != ""
    ensures TrimSpace(b + core) == core
  {
    hide TrimLeft, TrimRight, Blank, Trimmed;
    TrimLeftBlank(b, core);
    TrimmedStart(core, "");
    assert core + "" == core;
    TrimmedStays(core);
  }

  lemma PaddedLeftOnce(b: string, core: string, a: string)
    requires Blank(b) && Blank(a) && Trimmed(core)
    ensures TrimSpace(TrimLeft(b + core + a)) == core
  {
    hide *;
    LeftOfPadded(b, core, a);
    if core == "" {
      NothingTrims();
    } else {
      CoreThenBlank(core, a);
    }
  }

  lemma PaddedRightOnce(b: string, core: string, a: string)
    requires Blank(b) && Blank(a) && Trimmed(core)
    ensures TrimSpace(TrimRight(b + core + a)) == core
  {
    hide *;
    RightOfPadded(b, core, a);
    if core == "" {
      NothingTrims();
    } else {
      BlankThenCore(b, core);
    }
  }

  lemma TrimmedOnce(p: string)
    ensures TrimSpace(TrimLeft(p)) == TrimSpace(p) && TrimSpace(TrimRight(p)) == TrimSpace(p)
  {
    hide *;
    var b, a := TrimDecomposes(p);
    PaddedLeftOnce(b, TrimSpace(p), a);
    PaddedRightOnce(b, TrimSpace(p), a);
  }

  lemma EndsKeepOut(p: string, c: char)
    requires c !in p
    ensures c !in TrimLeft(p) && c !in TrimRight(p)
  {
    assert forall x :: x in TrimLeft(p) ==> x in p;
    assert forall x :: x in TrimRight(p) ==> x in p;
  }

  ghost predicate SomeNames(tokens: seq<string>, revision: nat) {
    exists i :: 0 <= i < |tokens| && Names(TagText(tokens[i]), revision)
  }

  lemma TrimmedEnds(tokens: seq<string>) returns (both: seq<string>)
    requires tokens != [] && forall t :: t in tokens ==> ',' !in t
    ensures |both| == |tokens| && Join(both, ',') == TrimSpace(Join(tokens, ','))
    ensures forall i :: 0 <= i < |tokens| ==> ',' !in both[i] && TagText(both[i]) == TagText(tokens[i])
  {
    hide TrimLeft, TrimRight, Join, TrimQuotes, TrimPrefix;
    var n := |tokens| - 1;
    var left := tokens[0 := TrimLeft(tokens[0])];
    both := left[n := TrimRight(left[n])];
    TrimLeftJoin(tokens);
    TrimRightJoin(left);
    forall i | 0 <= i <= n ensures ',' !in both[i] && TagText(both[i]) == TagText(tokens[i]) {
      assert tokens[i] in tokens;
      hide TagText, TrimSpace;
      TrimmedTextStays(tokens[i]);
      TrimmedTextStays(left[i]);
    }
  }

  lemma TrimmedTextStays(token: string)
    requires ',' !in token
    ensures ',' !in TrimLeft(token) && ',' !in TrimRight(token)
    ensures TagText(TrimLeft(token)) == TagText(token) && TagText(TrimRight(token)) == TagText(token)
  {
    hide TrimLeft, TrimRight, TrimSpace, TrimQuotes, TrimPrefix;
    EndsKeepOut(token, ',');
    TrimmedOnce(token);
  }

  /** Trimming the whole header changes only white space that its members are trimmed of anyway. */
  lemma HeaderTokens(tokens: seq<string>, revision: nat)
    requires tokens != [] && forall t :: t in tokens ==> ',' !in t
    ensures var header := Join(tokens, ',');
            Satisfied(header, revision) <==> TrimSpace(header) == "" || SomeNames(tokens, revision)
  {
    hide TrimSpace, Split, Join, TagText, Names;
    var both := TrimmedEnds(tokens);
    SplitJoin(both, ',');
    assert SomeNames(both, revision) <==> SomeNames(tokens, revision);
    MemberOrIndex(both, revision);
  }

  lemma MemberOrIndex(tokens: seq<string>, revision: nat)
    ensures SomeNames(tokens, revision) <==> exists token :: token in tokens && Names(TagText(token), revision)
  {
    hide TagText, Names;
    if token :| token in tokens && Names(TagText(token), revision) {
      var i :| 0 <= i < |tokens| && tokens[i] == token;
    }
  }

  // The list members a tag is split into

  function Before(t: Tag): string {
    t.before + (if t.weak then "W/" else "") + if t.quoted then "\"" else ""
  }

  function Behind(t: Tag): string {
    (if t.quoted then "\"" else "") + t.after
  }

  function Padded(before: string, parts: seq<string>, behind: string): seq<string>
    requires parts != []
  {
    var first := parts[0 := before + parts[0]];
    first[|parts| - 1 := first[|parts| - 1] + behind]
  }

  /** What splitting the header at commas makes of one tag. */
  function Members(t: Tag): seq<string> {
    Padded(Before(t), Split(t.text, ','), Behind(t))
  }

  lemma {:induction false} JoinPutBehind(parts: seq<string>, behind: string)
    requires parts != []
    ensures Join(parts[|parts| - 1 := parts[|parts| - 1] + behind], ',') == Join(parts, ',') + behind
  {
    if |parts| > 1 {
      var n := |parts| - 1;
      JoinPutBehind(parts[1..], behind);
      assert parts[n := parts[n] + behind][1..] == parts[1..][n - 1 := parts[n] + behind];
      assert parts[0] + [','] + (Join(parts[1..], ',') + behind) == parts[0] + [','] + Join(parts[1..], ',') + behind;
    }
  }

  lemma JoinPutBefore(parts: seq<string>, before: string)
    requires parts != []
    ensures Join(parts[0 := before + parts[0]], ',') == before + Join(parts, ',')
  {
    if |parts| > 1 {
      assert parts[0 := before + parts[0]][1..] == parts[1..];
      assert before + (parts[0] + [','] + Join(parts[1..], ',')) == before + parts[0] + [','] + Join(parts[1..], ',');
    }
  }

  lemma WrittenAround(t: Tag)
    ensures Written(t) == Before(t) + t.text + Behind(t)
  {
    assert t.weak && t.quoted ==> Written(t) == t.before + "W/" + "\"" + t.text + "\"" + t.after;
  }

  lemma MembersJoin(t: Tag)
    ensures Join(Members(t), ',') == Written(t)
  {
    hide Join, Split, Written, Before, Behind;
    var parts := Split(t.text, ',');
    JoinPutBefore(parts, Before(t));
    JoinPutBehind(parts[0 := Before(t) + parts[0]], Behind(t));
    JoinSplit(t.text, ',');
    WrittenAround(t);
  }

  lemma MembersHaveNoComma(t: Tag)
    requires Valid(t)
    ensures forall m :: m in Members(t) ==> ',' !in m
  {
    SplitHasNoSeparator(t.text, ',');
    NoCommaAround(t);
    hide Split, Before, Behind, Valid;
    var parts, members := Split(t.text, ','), Members(t);
    forall i | 0 <= i < |members| ensures ',' !in members[i] {
      assert parts[i] in parts;
    }
  }

  lemma NoCommaAround(t: Tag)
    requires Valid(t)
    ensures ',' !in Before(t) && ',' !in Behind(t)
  {
  }

  /** What the handler reads from each of them. */
  function Piece(t: Tag, i: nat): string
    requires i < |Split(t.text, ',')|
  {
    var parts := Split(t.text, ',');
    var n := |parts| - 1;
    if n == 0 then t.text
    else if i == 0 then TrimRight(parts[0])
    else if i == n then TrimPrefix(TrimLeft(parts[n]), "W/")
    else TrimPrefix(TrimSpace(parts[i]), "W/")
  }

  lemma OpenQuote(text: string)
    requires '"' !in text
    ensures TrimQuotes("\"" + text) == text && TrimQuotes(text + "\"") == text
  {
    TrimQuotesPlain(text);
    var open, close := "\"" + text, text + "\"";
    assert open[1..] == text;
    assert text != "" ==> text[0] in text && text[|text| - 1] in text;
    assert TrimQuotesLeft(open) == TrimQuotesLeft(text);
    if text == "" {
      assert close[1..] == "";
    } else {
      assert close[0] == text[0] && close[..|text|] == text;
    }
  }

  lemma TrimmedFirst(before: string, mark: string, p: string)
    requires Blank(before) && Trimmed(mark) && mark != ""
    ensures TrimSpace(before + mark + p) == mark + TrimRight(p)
  {
    hide TrimLeft, TrimRight, Blank;
    assert before + mark + p == before + (mark + p);
    TrimLeftBlank(before, mark + p);
    StartsPlain(mark, p);
    TrimRightStops(mark, p);
  }

  lemma MarkPrefix(x: string)
    ensures "W/" <= x <==> |x| >= 2 && x[0] == 'W' && x[1] == '/'
  {
  }

  lemma UnmarkedFirst(weak: bool, q: string)
    ensures var mark := (if weak then "W/" else "") + "\"";
            TrimPrefix(mark + q, "W/") == "\"" + q
  {
    var mark := (if weak then "W/" else "") + "\"";
    MarkPrefix(mark + q);
    if weak {
      assert (mark + q)[2..] == "\"" + q;
    }
  }

  lemma FirstPiece(before: string, weak: bool, p: string)
    requires Blank(before) && '"' !in p
    ensures TagText(before + ((if weak then "W/" else "") + "\"") + p) == TrimRight(p)
  {
    hide TrimSpace, TrimRight, Blank, TrimQuotes, TrimPrefix;
    EndsKeepOut(p, '"');
    MarkIsTrimmed(weak);
    TrimmedFirst(before, (if weak then "W/" else "") + "\"", p);
    UnmarkedFirst(weak, TrimRight(p));
    OpenQuote(TrimRight(p));
  }

  lemma MarkIsTrimmed(weak: bool)
    ensures var mark := (if weak then "W/" else "") + "\"";
            mark != "" && Trimmed(mark)
  {
  }

  lemma StartsPlain(mark: string, p: string)
    requires mark != "" && !IsSpace(mark[0])
    ensures TrimLeft(mark + p) == mark + p
  {
  }

  lemma QuoteIsNoSpace(l: string, after: string)
    ensures !IsSpace(("\"" + after)[0]) && !IsSpace((l + "\"")[|l + "\""| - 1])
    ensures l + ("\"" + after) == (l + "\"") + after
  {
    assert (l + "\"")[|l|] == '"';
  }

  lemma TrimmedLast(p: string, after: string)
    requires Blank(after)
    ensures TrimSpace(p + ("\"" + after)) == TrimLeft(p) + "\""
  {
    hide TrimLeft, TrimRight, Blank, IsSpace;
    var l := TrimLeft(p);
    QuoteIsNoSpace(l, after);
    TrimLeftStops(p, "\"" + after);
    TrimRightBlank(l + "\"", after);
    EndsPlain(l + "\"");
  }

  lemma PrefixBeforeQuote(l: string)
    ensures TrimPrefix(l + "\"", "W/") == TrimPrefix(l, "W/") + "\""
  {
    var q := l + "\"";
    MarkPrefix(l);
    MarkPrefix(q);
    if |l| >= 2 {
      assert q[0] == l[0] && q[1] == l[1] && q[2..] == l[2..] + "\"";
    } else if |l| == 1 {
      assert q[1] == '"';
    }
  }

  lemma LastPiece(p: string, after: string)
    requires Blank(after) && '"' !in p
    ensures TagText(p + ("\"" + after)) == TrimPrefix(TrimLeft(p), "W/")
  {
    EndsKeepOut(p, '"');
    hide TrimSpace, TrimLeft, Blank, TrimQuotes;
    TrimmedLast(p, after);
    PrefixBeforeQuote(TrimLeft(p));
    OpenQuote(TrimPrefix(TrimLeft(p), "W/"));
  }

  lemma EndsPlain(s: string)
    requires s != "" && !IsSpace(s[|s| - 1])
    ensures TrimRight(s) == s
  {
  }

  lemma MiddlePiece(p: string)
    requires '"' !in p
    ensures TagText(p) == TrimPrefix(TrimSpace(p), "W/")
  {
    hide TrimSpace, TrimQuotes;
    TrimKeepsOut(p, '"');
    TrimQuotesPlain(TrimPrefix(TrimSpace(p), "W/"));
  }

  lemma MemberAt(t: Tag, i: nat)
    requires i < |Split(t.text, ',')|
    ensures var parts := Split(t.text, ',');
            Members(t)[i]
            == (if i == 0 then Before(t) else "") + parts[i] + (if i == |parts| - 1 then Behind(t) else "")
  {
    hide Split, Before, Behind;
    var parts := Split(t.text, ',');
    assert "" + parts[i] == parts[i] && parts[i] + "" == parts[i];
  }

  lemma WholePiece(t: Tag)
    requires Valid(t) && |Split(t.text, ',')| == 1
    ensures TagText(Members(t)[0]) == t.text
  {
    hide TagText, Split, Before, Behind;
    var parts := Split(t.text, ',');
    JoinSplit(t.text, ',');
    assert Join(parts, ',') == parts[0];
    MemberAt(t, 0);
    WrittenAround(t);
    TagTextOfTag(t);
  }

  lemma QuotedAround(t: Tag)
    requires t.quoted
    ensures Before(t) == t.before + ((if t.weak then "W/" else "") + "\"") && Behind(t) == "\"" + t.after
  {
  }

  lemma PiecesAreRead(t: Tag, i: nat)
    requires Valid(t) && i < |Split(t.text, ',')|
    ensures TagText(Members(t)[i]) == Piece(t, i)
  {
    var parts := Split(t.text, ',');
    if |parts| == 1 {
      WholePiece(t);
    } else {
      CommaIsQuoted(t);
      hide TagText, Split, Blank, TrimLeft, TrimRight, TrimSpace, Before, Behind, TrimPrefix, Members;
      SplitKeepsChars(t.text, ',', '"');
      assert parts[i] in parts;
      MemberAt(t, i);
      QuotedAround(t);
      if i == 0 {
        FirstPiece(t.before, t.weak, parts[0]);
        assert Before(t) + parts[0] + "" == Before(t) + parts[0];
      } else if i == |parts| - 1 {
        LastPiece(parts[i], t.after);
        assert "" + parts[i] + Behind(t) == parts[i] + Behind(t);
      } else {
        MiddlePiece(parts[i]);
        assert "" + parts[i] + "" == parts[i];
      }
    }
  }

  lemma CommaIsQuoted(t: Tag)
    requires Valid(t) && |Split(t.text, ',')| > 1
    ensures t.quoted
  {
  }

  // What the header means

  /** A tag permits a write when one of the pieces the handler reads from it is "*" or the revision. */
  predicate Permits(t: Tag, revision: nat) {
    exists i :: 0 <= i < |Split(t.text, ',')| && Names(Piece(t, i), revision)
  }

  /** A tag without a comma is read whole; one with a comma never names anything as a whole. */
  lemma PermitsWhole(t: Tag, revision: nat)
    ensures ',' !in t.text ==> (Permits(t, revision) <==> Names(t.text, revision))
    ensures ',' in t.text ==> !Names(t.text, revision)
  {
    var parts := Split(t.text, ',');
    if ',' !in t.text {
      assert parts == [t.text] && Piece(t, 0) == t.text;
    } else {
      var i :| 0 <= i < |t.text| && t.text[i] == ',';
      assert !Decimal.IsDigit(t.text[i]);
    }
  }

  function AllMembers(tags: seq<Tag>): seq<string> {
    if tags == [] then [] else Members(tags[0]) + AllMembers(tags[1..])
  }

  lemma {:induction false} AllMembersJoin(tags: seq<Tag>)
    requires tags != []
    ensures Join(AllMembers(tags), ',') == Join(AllWritten(tags), ',') && AllMembers(tags) != []
  {
    hide Members, Written;
    MembersJoin(tags[0]);
    MembersAreThere(tags[0]);
    assert AllWritten(tags)[1..] == AllWritten(tags[1..]);
    if |tags| == 1 {
      assert AllMembers(tags[1..]) == [];
      assert AllMembers(tags) == Members(tags[0]);
      assert AllWritten(tags) == [Written(tags[0])];
    } else {
      AllMembersJoin(tags[1..]);
      JoinAppend(Members(tags[0]), AllMembers(tags[1..]), ',');
    }
  }

  lemma MembersAreThere(t: Tag)
    ensures |Members(t)| == |Split(t.text, ',')| >= 1
  {
  }

  lemma {:induction false} AllMembersName(tags: seq<Tag>, revision: nat)
    requires forall t :: t in tags ==> Valid(t)
    ensures forall m :: m in AllMembers(tags) ==> ',' !in m
    ensures SomeNames(AllMembers(tags), revision) <==> exists t :: t in tags && Permits(t, revision)
  {
    hide Members, Valid, Permits;
    if tags != [] {
      assert tags[0] in tags && forall t :: t in tags[1..] ==> t in tags;
      AllMembersName(tags[1..], revision);
      MembersHaveNoComma(tags[0]);
      TagNames(tags[0], revision);
      SomeNamesAppend(Members(tags[0]), AllMembers(tags[1..]), revision);
      assert forall t :: t in tags <==> t == tags[0] || t in tags[1..];
    }
  }

  lemma TagNames(t: Tag, revision: nat)
    requires Valid(t)
    ensures SomeNames(Members(t), revision) <==> Permits(t, revision)
  {
    hide Members, Valid, TagText, Names, Piece, Split;
    MembersAreThere(t);
    forall i | 0 <= i < |Members(t)| ensures TagText(Members(t)[i]) == Piece(t, i) {
      PiecesAreRead(t, i);
    }
  }

  lemma SomeNamesAppend(a: seq<string>, b: seq<string>, revision: nat)
    ensures SomeNames(a + b, revision) <==> SomeNames(a, revision) || SomeNames(b, revision)
  {
    hide TagText, Names;
    if SomeNames(a, revision) {
      var i :| 0 <= i < |a| && Names(TagText(a[i]), revision);
      assert (a + b)[i] == a[i];
    }
    if SomeNames(b, revision) {
      var i :| 0 <= i < |b| && Names(TagText(b[i]), revision);
      assert (a + b)[|a| + i] == b[i];
    }
  }

  /**
   * A header listing entity tags permits the write exactly when it is blank or one of its tags permits it,
   * whatever quotes, weak markers and white space surround them.
   */
  lemma HeaderMeansItsTags(tags: seq<Tag>, revision: nat)
    requires tags != [] && forall t :: t in tags ==> Valid(t)
    ensures var header := Join(AllWritten(tags), ',');
            Satisfied(header, revision)
            <==> TrimSpace(header) == "" || exists t :: t in tags && Permits(t, revision)
  {
    hide Valid, Permits, Satisfied, SomeNames, AllMembers;
    AllMembersJoin(tags);
    AllMembersName(tags, revision);
    HeaderTokens(AllMembers(tags), revision);
  }

  // What the standard says

  /** The strong comparison: a quoted tag without a weak marker, and nothing but the revision in it. */
  predicate Strong(t: Tag, revision: nat) {
    !t.weak && t.quoted && t.text == Decimal.Render(revision)
  }

  /** The wild card: the whole header, neither quoted nor weak. */
  predicate Star(tags: seq<Tag>) {
    |tags| == 1 && !tags[0].weak && !tags[0].quoted && tags[0].text == "*"
  }

  ghost predicate Standard(tags: seq<Tag>, revision: nat) {
    Star(tags) || exists t :: t in tags && Strong(t, revision)
  }

  /** Where the handler reads a tag more loosely: a weak one, one without quotes, one with a comma, a star. */
  predicate Lax(t: Tag) {
    t.weak || !t.quoted || ',' in t.text || t.text == "*"
  }

  ghost predicate LaxPermits(tags: seq<Tag>, revision: nat) {
    exists t :: t in tags && Lax(t) && Permits(t, revision)
  }

  lemma StarPermits(t: Tag, revision: nat)
    requires t.text == "*"
    ensures Permits(t, revision)
  {
    hide Permits;
    assert forall c :: c in "*" ==> c == '*';
    PermitsWhole(t, revision);
  }

  /** A tag is read as the standard reads it unless it is a lax one. */
  lemma StrictPermits(t: Tag, revision: nat)
    ensures !Lax(t) ==> (Permits(t, revision) <==> Strong(t, revision))
    ensures Strong(t, revision) ==> Permits(t, revision)
  {
    hide Permits, Decimal.Render;
    assert !Decimal.IsDigit(',') && !Decimal.IsDigit('*');
    PermitsWhole(t, revision);
  }

  /** Every write the standard permits goes through. */
  lemma StandardIsHonoured(tags: seq<Tag>, revision: nat)
    requires tags != [] && forall t :: t in tags ==> Valid(t)
    ensures Standard(tags, revision) ==> Satisfied(Join(AllWritten(tags), ','), revision)
  {
    hide Valid, Permits, Satisfied, Strong, Lax;
    HeaderMeansItsTags(tags, revision);
    if Star(tags) {
      assert tags[0] in tags;
      StarPermits(tags[0], revision);
    } else if Standard(tags, revision) {
      var t :| t in tags && Strong(t, revision);
      StrictPermits(t, revision);
    }
  }

  /**
   * On a revision the handler decides as section 13.1.1 of RFC 9110 does, exactly unless it reads a lax tag
   * into a permission the standard does not give.
   */
  lemma StandardMeaningExactly(tags: seq<Tag>, revision: nat)
    requires tags != [] && forall t :: t in tags ==> Valid(t)
    requires TrimSpace(Join(AllWritten(tags), ',')) != ""
    ensures (Satisfied(Join(AllWritten(tags), ','), revision) <==> Standard(tags, revision))
            <==> (LaxPermits(tags, revision) ==> Standard(tags, revision))
  {
    hide Valid, Permits, Satisfied, Strong, Lax, Star;
    HeaderMeansItsTags(tags, revision);
    StandardIsHonoured(tags, revision);
    forall t | t in tags ensures !Lax(t) ==> (Permits(t, revision) <==> Strong(t, revision)) {
      StrictPermits(t, revision);
    }
  }

  /**
   * The header alone: it is the wild card, or no lax tag has a piece that is a star, nor a piece that is a
   * number unless a strong tag of the header has the same number.
   */
  ghost predicate ReadsStrictly(tags: seq<Tag>) {
    || Star(tags)
    || forall t, i :: t in tags && Lax(t) && 0 <= i < |Split(t.text, ',')| ==> Harmless(tags, Piece(t, i))
  }

  ghost predicate Harmless(tags: seq<Tag>, piece: string) {
    piece != "*" && (Decimal.Canonical(piece) ==> exists u :: u in tags && !u.weak && u.quoted && u.text == piece)
  }

  /** Some revision is named by no strong tag of the list, nor is any greater one. */
  lemma {:induction false} UnnamedRevision(tags: seq<Tag>) returns (revision: nat)
    ensures forall r: nat, t :: r >= revision && t in tags ==> !Strong(t, r)
  {
    if tags == [] {
      revision := 0;
    } else {
      revision := UnnamedRevision(tags[1..]);
      hide Decimal.Render;
      if r: nat :| Strong(tags[0], r) {
        forall s: nat | Strong(tags[0], s) ensures s == r {
          Decimal.RenderInjective(r, s);
        }
        revision := if r >= revision then r + 1 else revision;
      }
      assert forall t :: t in tags <==> t == tags[0] || t in tags[1..];
    }
  }

  lemma HarmlessPiece(tags: seq<Tag>, piece: string, revision: nat)
    requires Harmless(tags, piece) && Names(piece, revision)
    ensures Standard(tags, revision)
  {
    hide Decimal.Render;
    Decimal.RenderIsCanonical(revision);
    var u :| u in tags && !u.weak && u.quoted && u.text == piece;
    assert Strong(u, revision);
  }

  /** A piece that is not harmless permits a revision that the standard refuses. */
  lemma HarmfulPiece(tags: seq<Tag>, piece: string) returns (revision: nat)
    requires !Star(tags) && !Harmless(tags, piece)
    ensures Names(piece, revision) && !Standard(tags, revision)
  {
    hide Decimal.Render, Star;
    if piece == "*" {
      revision := UnnamedRevision(tags);
    } else {
      Decimal.RenderValue(piece);
      revision := Decimal.DigitsValue(piece);
    }
  }

  /** The handler decides every revision as the standard does exactly when the header reads strictly. */
  lemma StandardOnEveryRevision(tags: seq<Tag>)
    requires tags != [] && forall t :: t in tags ==> Valid(t)
    requires TrimSpace(Join(AllWritten(tags), ',')) != ""
    ensures (forall revision: nat :: Satisfied(Join(AllWritten(tags), ','), revision) <==> Standard(tags, revision))
            <==> ReadsStrictly(tags)
  {
    hide Valid, Satisfied, Standard, Lax, Harmless, Names, Piece, Join, Split;
    if ReadsStrictly(tags) {
      forall revision: nat
        ensures Satisfied(Join(AllWritten(tags), ','), revision) <==> Standard(tags, revision)
      {
        StandardMeaningExactly(tags, revision);
        if LaxPermits(tags, revision) {
          StrictIsStandard(tags, revision);
        }
      }
    } else {
      var t, i :| t in tags && Lax(t) && 0 <= i < |Split(t.text, ',')| && !Harmless(tags, Piece(t, i));
      var revision := HarmfulPiece(tags, Piece(t, i));
      assert Permits(t, revision);
      HeaderMeansItsTags(tags, revision);
    }
  }

  lemma StrictIsStandard(tags: seq<Tag>, revision: nat)
    requires ReadsStrictly(tags) && LaxPermits(tags, revision)
    ensures Standard(tags, revision)
  {
    hide Lax, Harmless, Names, Piece, Split, Strong;
    if !Star(tags) {
      var t :| t in tags && Lax(t) && Permits(t, revision);
      var i :| 0 <= i < |Split(t.text, ',')| && Names(Piece(t, i), revision);
      HarmlessPiece(tags, Piece(t, i), revision);
    }
  }

  lemma OneTag(t: Tag, revision: nat)
    requires Valid(t) && Permits(t, revision)
    ensures AllWritten([t]) == [Written(t)] && Satisfied(Written(t), revision)
    ensures !Strong(t, revision) && !Star([t]) ==> !Standard([t], revision)
  {
    hide Valid, Permits, Satisfied, Strong, Star, Written;
    assert [t][0] in [t];
    HeaderMeansItsTags([t], revision);
  }

  /** A weak tag permits its revision, and the standard refuses it. */
  lemma WeakTagPermits(revision: nat)
    ensures var tags := [Tag("", true, true, Decimal.Render(revision), "")];
            && AllWritten(tags) == ["W/\"" + Decimal.Render(revision) + "\""]
            && Satisfied("W/\"" + Decimal.Render(revision) + "\"", revision) && !Standard(tags, revision)
  {
    hide Satisfied, Permits, Standard, Decimal.Render;
    var t := Tag("", true, true, Decimal.Render(revision), "");
    assert !Decimal.IsDigit('"');
    assert Written(t) == "W/\"" + Decimal.Render(revision) + "\"";
    DigitsName(t, revision, revision);
    OneTag(t, revision);
  }

  /** A quoted star permits every revision, and the standard refuses them all. */
  lemma QuotedStarPermits(revision: nat)
    ensures var tags := [Tag("", false, true, "*", "")];
            AllWritten(tags) == ["\"*\""] && Satisfied("\"*\"", revision) && !Standard(tags, revision)
  {
    hide Satisfied, Permits, Standard, Decimal.Render;
    var t := Tag("", false, true, "*", "");
    assert !Decimal.IsDigit('*') && t.text[0] == '*';
    assert Written(t) == "\"*\"";
    StarPermits(t, revision);
    OneTag(t, revision);
  }

  const ONE_TWO := Tag("", false, true, "1,2", "")

  lemma OneTwoIsWritten()
    ensures Valid(ONE_TWO) && AllWritten([ONE_TWO]) == ["\"1,2\""] && Join(AllWritten([ONE_TWO]), ',') == "\"1,2\""
  {
    assert Written(ONE_TWO) == "\"1,2\"";
  }

  lemma OneTwoSplits()
    ensures Split("1,2", ',') == ["1", "2"]
  {
    assert ["1", "2"][1..] == ["2"];
    assert Join(["1", "2"], ',') == "1,2";
    SplitJoin(["1", "2"], ',');
  }

  lemma OneTwoPermits()
    ensures Permits(ONE_TWO, 1) && Permits(ONE_TWO, 2)
  {
    OneTwoSplits();
    OneTwoRenders();
    hide Split, TrimRight, TrimLeft, Decimal.Render;
    assert Names(Piece(ONE_TWO, 0), 1) by { EndsPlain("1"); }
    assert Names(Piece(ONE_TWO, 1), 2) by { StartsPlain("2", ""); }
  }

  lemma OneTwoRenders()
    ensures Decimal.Render(1) == "1" && Decimal.Render(2) == "2"
    ensures TrimPrefix("2", "W/") == "2" && "2" + "" == "2"
  {
  }

  /** The one tag "1,2" permits a write on revision 1, and on revision 2, where the standard refuses both. */
  lemma CommaIsSplit()
    ensures AllWritten([ONE_TWO]) == ["\"1,2\""]
    ensures Satisfied("\"1,2\"", 1) && !Standard([ONE_TWO], 1)
    ensures Satisfied("\"1,2\"", 2) && !Standard([ONE_TWO], 2)
  {
    hide Satisfied, Valid, Permits, AllWritten, Join;
    OneTwoRenders();
    OneTwoIsWritten();
    HeaderMeansItsTags([ONE_TWO], 1);
    HeaderMeansItsTags([ONE_TWO], 2);
    OneTwoPermits();
    assert [ONE_TWO][0] in [ONE_TWO];
  }

  // Headers that list revisions

  /** Any writing of a list of revisions: quoted or not, weak or not, with any white space. */
  ghost predicate ListsRevisions(tags: seq<Tag>, revisions: seq<nat>) {
    && tags != [] && |tags| == |revisions|
    && forall i :: 0 <= i < |tags| ==> Valid(tags[i]) && tags[i].text == Decimal.Render(revisions[i])
  }

  /** Such a header permits a write exactly on the revisions it lists. */
  lemma ListedRevisionsOnly(tags: seq<Tag>, revisions: seq<nat>, revision: nat)
    requires ListsRevisions(tags, revisions)
    ensures Satisfied(Join(AllWritten(tags), ','), revision) <==> revision in revisions
  {
    hide Valid, Satisfied, Permits, Join;
    HeaderMeansItsTags(tags, revision);
    forall i | 0 <= i < |tags| ensures Permits(tags[i], revision) <==> revisions[i] == revision {
      DigitsName(tags[i], revisions[i], revision);
    }
    assert tags[0] in tags;
    HeaderIsThere(tags);
    if revision in revisions {
      var i :| 0 <= i < |revisions| && revisions[i] == revision;
      assert tags[i] in tags;
    }
  }

  lemma DigitsName(t: Tag, named: nat, revision: nat)
    requires t.text == Decimal.Render(named)
    ensures Permits(t, revision) <==> named == revision
  {
    hide Permits, Decimal.Render;
    assert Decimal.IsDigit(t.text[0]) && !Decimal.IsDigit(',') && !Decimal.IsDigit('*');
    assert forall i :: 0 <= i < |t.text| ==> Decimal.IsDigit(t.text[i]);
    assert "*"[0] == '*';
    PermitsWhole(t, revision);
    Decimal.RenderInjective(named, revision);
  }

  /** A header with a digit in its first tag is not blank. */
  lemma HeaderIsThere(tags: seq<Tag>)
    requires tags != [] && tags[0].text != "" && !IsSpace(tags[0].text[0])
    ensures TrimSpace(Join(AllWritten(tags), ',')) != ""
  {
    hide TrimSpace;
    var header, t := Join(AllWritten(tags), ','), tags[0];
    TrimSpaceEmpty(header);
    WrittenAround(t);
    hide Written;
    assert header[..|Written(t)|] == Written(t);
    assert header[|Before(t)|] == t.text[0];
  }
}
