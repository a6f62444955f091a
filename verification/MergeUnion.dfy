/** The union of two contacts' lists in a merge: the keeper's entries first, one entry per key. */
module MergeUnion {
  import opened Wrappers
  import opened Text
  import opened VCardText

  /** How a list treats an entry: circles drop blank names, phones always keep a number without digits. */
  datatype Rule = Drop | Always | Once(key: string)

  function Keys<T>(rule: T -> Rule, entries: seq<T>): set<string> {
    set i | 0 <= i < |entries| && rule(entries[i]).Once? :: rule(entries[i]).key
  }

  /** The entries that stay: each key is taken from the first entry that has it. */
  function Union<T>(rule: T -> Rule, entries: seq<T>): seq<T> {
    if entries == [] then []
    else
      var n := |entries| - 1;
      var before, e := Union(rule, entries[..n]), entries[n];
      match rule(e)
      case Drop => before
      case Always => before + [e]
      case Once(key) => if key in Keys(rule, entries[..n]) then before else before + [e]
  }

  method UnionLists<T>(rule: T -> Rule, keeper: seq<T>, loser: seq<T>) returns (union: seq<T>)
    ensures union == Union(rule, keeper + loser)
  {
    var entries, seen := keeper + loser, {};
    union := [];
    for i := 0 to |entries|
      invariant union == Union(rule, entries[..i])
      invariant seen == Keys(rule, entries[..i])
    {
      assert entries[..i + 1][..i] == entries[..i];
      KeysAppend(rule, entries[..i], entries[i]);
      assert entries[..i + 1] == entries[..i] + [entries[i]];
      match rule(entries[i]) {
        case Drop =>
        case Always => union := union + [entries[i]];
        case Once(key) =>
          if key !in seen {
            seen := seen + {key};
            union := union + [entries[i]];
          }
      }
    }
    assert entries[..|entries|] == entries;
  }

  lemma KeysAppend<T>(rule: T -> Rule, entries: seq<T>, e: T)
    ensures Keys(rule, entries + [e]) == Keys(rule, entries) + if rule(e).Once? then {rule(e).key} else {}
  {
    var all := entries + [e];
    assert forall i :: 0 <= i < |entries| ==> all[i] == entries[i];
    assert all[|entries|] == e;
  }

  /** No key is lost and none is kept twice; nothing that is always kept is lost, nothing is made up. */
  lemma {:induction false} UnionIsExact<T>(rule: T -> Rule, entries: seq<T>)
    ensures Keys(rule, Union(rule, entries)) == Keys(rule, entries)
    ensures forall j, k :: 0 <= j < k < |Union(rule, entries)| && rule(Union(rule, entries)[j]).Once?
                           ==> rule(Union(rule, entries)[j]) != rule(Union(rule, entries)[k])
    ensures forall e :: e in Union(rule, entries) ==> e in entries && !rule(e).Drop?
    ensures forall e :: e in entries && rule(e).Always? ==> e in Union(rule, entries)
  {
    if entries != [] {
      var n := |entries| - 1;
      var before, e := Union(rule, entries[..n]), entries[n];
      UnionIsExact(rule, entries[..n]);
      assert entries == entries[..n] + [e];
      KeysAppend(rule, entries[..n], e);
      KeysAppend(rule, before, e);
      if Union(rule, entries) == before + [e] && rule(e).Once? {
        forall j | 0 <= j < |before| ensures rule(before[j]) != rule(e) {
          assert rule(before[j]).Once? ==> rule(before[j]).key in Keys(rule, before);
        }
      }
    }
  }

  /** A keeper's list without repeats or blanks opens the union as it was. */
  lemma {:induction false} KeeperComesFirst<T>(rule: T -> Rule, keeper: seq<T>, loser: seq<T>)
    requires Union(rule, keeper) == keeper
    ensures keeper <= Union(rule, keeper + loser)
  {
    if loser == [] {
      assert keeper + loser == keeper;
    } else {
      var n := |loser| - 1;
      KeeperComesFirst(rule, keeper, loser[..n]);
      assert (keeper + loser)[..|keeper| + n] == keeper + loser[..n];
    }
  }

  // Emails, URLs and handles: one key for type and value

  datatype Entry = Entry(kind: string, value: string)

  function Folded(s: string): string {
    Lower(TrimSpace(s))
  }

  function EntryKey(e: Entry): string {
    Folded(e.kind) + "|" + Folded(e.value)
  }

  predicate SameEntry(a: Entry, b: Entry) {
    Folded(a.kind) == Folded(b.kind) && Folded(a.value) == Folded(b.value)
  }

  /** Up to where it is longer, one type with a bar after it opens the other, and the values differ by that stretch. */
  predicate Shifted(k: string, v: string, k': string, v': string) {
    k + "|" <= k' && v == k'[|k| + 1..] + "|" + v'
  }

  lemma ShiftedJoins(k: string, v: string, k': string, v': string)
    requires Shifted(k, v, k', v')
    ensures k + "|" + v == k' + "|" + v'
  {
    var m := k'[|k| + 1..];
    assert k' == k + "|" + m;
    assert k + "|" + (m + "|" + v') == (k + "|" + m) + "|" + v';
  }

  lemma JoinsShift(k: string, v: string, k': string, v': string)
    requires k + "|" + v == k' + "|" + v' && |k| < |k'|
    ensures Shifted(k, v, k', v')
  {
    var s := k + "|" + v;
    var m := k'[|k| + 1..];
    assert s[..|k| + 1] == k + "|" && s[..|k'|] == k';
    assert k'[..|k| + 1] == s[..|k| + 1];
    assert s[|k| + 1..] == v;
    assert (k' + "|" + v')[|k| + 1..] == m + "|" + v';
  }

  /** Joining two parts at a bar loses where the bar was, exactly when the first parts are shifted. */
  lemma BarJoinExact(k: string, v: string, k': string, v': string)
    ensures k + "|" + v == k' + "|" + v'
            <==> (k == k' && v == v') || Shifted(k, v, k', v') || Shifted(k', v', k, v)
  {
    hide Shifted;
    var s, s' := k + "|" + v, k' + "|" + v';
    if s == s' {
      if |k| < |k'| {
        JoinsShift(k, v, k', v');
      } else if |k'| < |k| {
        JoinsShift(k', v', k, v);
      } else {
        assert s[..|k|] == k && s'[..|k'|] == k';
        assert s[|k| + 1..] == v && s'[|k'| + 1..] == v';
      }
    }
    if Shifted(k, v, k', v') {
      ShiftedJoins(k, v, k', v');
    }
    if Shifted(k', v', k, v) {
      ShiftedJoins(k', v', k, v);
    }
  }

  /** Two entries share a key exactly when they agree up to case and white space, or are shifted against each other. */
  lemma EntryKeysExactly(a: Entry, b: Entry)
    ensures EntryKey(a) == EntryKey(b)
            <==> || SameEntry(a, b)
                 || Shifted(Folded(a.kind), Folded(a.value), Folded(b.kind), Folded(b.value))
                 || Shifted(Folded(b.kind), Folded(b.value), Folded(a.kind), Folded(a.value))
  {
    hide Folded, Shifted;
    BarJoinExact(Folded(a.kind), Folded(a.value), Folded(b.kind), Folded(b.value));
  }

  /** The longer type goes on after the bar with something a trimmed value can begin with. */
  predicate OpensOther(k: string, k': string) {
    k + "|" <= k' && (|k'| == |k| + 1 || !IsSpace(k'[|k| + 1]))
  }

  lemma FoldedIsTrimmed(s: string)
    ensures Trimmed(Folded(s)) && Lower(Folded(s)) == Folded(s)
  {
    hide TrimSpace, Lower, Trimmed;
    TrimSpaceTrims(s);
    LowerStaysTrimmed(TrimSpace(s));
  }

  lemma ShiftNeedsOpening(k: string, v: string, k': string, v': string)
    requires Shifted(k, v, k', v') && Trimmed(v)
    ensures OpensOther(k, k')
  {
    if |k'| > |k| + 1 {
      assert v[0] == k'[|k| + 1];
    }
  }

  lemma LowerOfTail(f: string, i: nat)
    requires Lower(f) == f && i <= |f|
    ensures Lower(f[i..] + "|x") == f[i..] + "|x"
  {
    var t := f[i..] + "|x";
    forall j | 0 <= j < |t| ensures LowerChar(t[j]) == t[j] {
      if j < |f| - i {
        assert t[j] == f[i + j] == Lower(f)[i + j];
      }
    }
  }

  lemma OpenedStays(f: string, f': string)
    requires OpensOther(f, f') && Lower(f') == f'
    ensures Folded(f'[|f| + 1..] + "|x") == f'[|f| + 1..] + "|x"
  {
    hide TrimSpace, Lower;
    var v := f'[|f| + 1..] + "|x";
    LowerOfTail(f', |f| + 1);
    TrimSpaceTrims(v);
    assert |f'| > |f| + 1 ==> v[0] == f'[|f| + 1];
    assert v[|v| - 1] == 'x';
  }

  /** Values that collide under two types of which one opens the other. */
  lemma OpeningCollides(k: string, k': string) returns (v: string, v': string)
    requires OpensOther(Folded(k), Folded(k'))
    ensures EntryKey(Entry(k, v)) == EntryKey(Entry(k', v')) && !SameEntry(Entry(k, v), Entry(k', v'))
  {
    FoldedIsTrimmed(k');
    hide Folded, Lower;
    var f, f' := Folded(k), Folded(k');
    v, v' := f'[|f| + 1..] + "|" + "x", "x";
    assert v == f'[|f| + 1..] + "|x";
    OpenedStays(f, f');
    OneLetter();
    ShiftedJoins(f, v, f', v');
  }

  lemma OneLetter()
    ensures Folded("x") == "x"
  {
    TrimSpaceTrims("x");
  }

  /**
   * Under two types the keys tell every two values apart exactly when neither type, trimmed and in lower
   * case, opens the other. It can be checked before the merge, on the types alone.
   */
  lemma TypesAreSafeExactly(k: string, k': string)
    ensures (forall v, v' :: EntryKey(Entry(k, v)) == EntryKey(Entry(k', v')) ==> SameEntry(Entry(k, v), Entry(k', v')))
            <==> !OpensOther(Folded(k), Folded(k')) && !OpensOther(Folded(k'), Folded(k))
  {
    hide EntryKey, SameEntry, Folded, Shifted, OpensOther;
    if OpensOther(Folded(k), Folded(k')) {
      var v, v' := OpeningCollides(k, k');
    } else if OpensOther(Folded(k'), Folded(k)) {
      var v', v := OpeningCollides(k', k);
      SameEntryIsSymmetric(Entry(k', v'), Entry(k, v));
    } else {
      forall v, v' | EntryKey(Entry(k, v)) == EntryKey(Entry(k', v')) ensures SameEntry(Entry(k, v), Entry(k', v')) {
        EntryKeysExactly(Entry(k, v), Entry(k', v'));
        FoldedIsTrimmed(v);
        FoldedIsTrimmed(v');
        if Shifted(Folded(k), Folded(v), Folded(k'), Folded(v')) {
          ShiftNeedsOpening(Folded(k), Folded(v), Folded(k'), Folded(v'));
        }
        if Shifted(Folded(k'), Folded(v'), Folded(k), Folded(v)) {
          ShiftNeedsOpening(Folded(k'), Folded(v'), Folded(k), Folded(v));
        }
      }
    }
  }

  lemma SameEntryIsSymmetric(a: Entry, b: Entry)
    ensures SameEntry(a, b) <==> SameEntry(b, a)
  {
  }

  lemma FoldedKeepsOut(s: string)
    requires '|' !in s
    ensures '|' !in Folded(s)
  {
    hide TrimSpace;
    TrimKeepsOut(s, '|');
    var t := TrimSpace(s);
    forall i | 0 <= i < |t| ensures Lower(t)[i] != '|' {
      assert t[i] in t;
    }
  }

  lemma ShiftHasBars(k: string, v: string, k': string, v': string)
    requires Shifted(k, v, k', v')
    ensures '|' in v && '|' in k'
  {
    assert v[|k'| - |k| - 1] == '|' && k'[|k|] == '|';
  }

  /** In particular, keys are exact when no type holds a bar. */
  lemma EntryKeysAreExact(a: Entry, b: Entry)
    requires '|' !in a.kind && '|' !in b.kind
    ensures EntryKey(a) == EntryKey(b) <==> SameEntry(a, b)
  {
    hide Folded, Shifted;
    EntryKeysExactly(a, b);
    FoldedKeepsOut(a.kind);
    FoldedKeepsOut(b.kind);
    if Shifted(Folded(a.kind), Folded(a.value), Folded(b.kind), Folded(b.value)) {
      ShiftHasBars(Folded(a.kind), Folded(a.value), Folded(b.kind), Folded(b.value));
    }
    if Shifted(Folded(b.kind), Folded(b.value), Folded(a.kind), Folded(a.value)) {
      ShiftHasBars(Folded(b.kind), Folded(b.value), Folded(a.kind), Folded(a.value));
    }
  }

  // Phones: the value part of the key is digits

  function Digits(s: string): string {
    if s == "" then "" else (if '0' <= s[0] <= '9' then [s[0]] else "") + Digits(s[1..])
  }

  /** The last ten digits of a number; none for fewer than seven. */
  function PhoneKey(phone: string): string {
    var d := Digits(phone);
    if |d| < 7 then "" else if |d| > 10 then d[|d| - 10..] else d
  }

  function PhoneEntryKey(e: Entry): string {
    Folded(e.kind) + "|" + PhoneKey(e.value)
  }

  lemma {:induction false} DigitsHoldNoBar(s: string)
    ensures '|' !in Digits(s)
  {
    if s != "" {
      DigitsHoldNoBar(s[1..]);
    }
  }

  /** Phone keys tell all numbers apart whatever the types hold, because digits hold no bar. */
  lemma PhoneKeysAreExact(a: Entry, b: Entry)
    ensures PhoneEntryKey(a) == PhoneEntryKey(b)
            <==> Folded(a.kind) == Folded(b.kind) && PhoneKey(a.value) == PhoneKey(b.value)
  {
    DigitsHoldNoBar(a.value);
    DigitsHoldNoBar(b.value);
    hide Folded, Shifted, Digits;
    var k, k', d, d' := Folded(a.kind), Folded(b.kind), PhoneKey(a.value), PhoneKey(b.value);
    assert '|' !in d && '|' !in d';
    BarJoinExact(k, d, k', d');
    if Shifted(k, d, k', d') {
      ShiftHasBars(k, d, k', d');
    }
    if Shifted(k', d', k, d) {
      ShiftHasBars(k', d', k, d);
    }
  }

  function EntryRule(e: Entry): Rule {
    Once(EntryKey(e))
  }

  lemma FoldedLetters()
    ensures Folded("a|b") == "a|b" && Folded("c") == "c" && Folded("a") == "a" && Folded("b|c") == "b|c"
  {
    hide TrimSpace;
    TrimSpaceTrims("a|b");
    TrimSpaceTrims("c");
    TrimSpaceTrims("a");
    TrimSpaceTrims("b|c");
  }

  lemma SecondIsDropped<T>(rule: T -> Rule, a: T, b: T)
    requires rule(a) == rule(b) && rule(a).Once?
    ensures Union(rule, [a] + [b]) == [a]
  {
    assert ([a] + [b])[..1] == [a] && [a][..0] == [];
    assert Union(rule, [a][..0]) == [];
    KeysAppend(rule, [], a);
    assert [] + [a] == [a];
    assert rule(b).key in Keys(rule, [a]);
  }

  /** A "|" in a custom type can make two different entries look alike, and the merge then drops the second. */
  lemma BarsCollide()
    ensures var a, b := Entry("a|b", "c"), Entry("a", "b|c");
            !SameEntry(a, b) && Union(EntryRule, [a] + [b]) == [a]
  {
    hide Folded, Union;
    var a, b := Entry("a|b", "c"), Entry("a", "b|c");
    FoldedLetters();
    assert EntryKey(a) == EntryKey(b);
    SecondIsDropped(EntryRule, a, b);
  }

  // Addresses: nine parts joined at bars

  function AddressParts(a: Address): seq<string> {
    [Folded(a.kind), Folded(a.street), Folded(a.pobox), Folded(a.apartment), Folded(a.floor), Folded(a.city),
     Folded(a.region), Folded(a.postal), Folded(a.country)]
  }

  function AddressKey(a: Address): string {
    Join(AddressParts(a), '|')
  }

  /** The stretches between all bars, those between the parts and those inside them. */
  function Pieces(parts: seq<string>): seq<string> {
    if parts == [] then [] else Split(parts[0], '|') + Pieces(parts[1..])
  }

  lemma {:induction false} PiecesHoldNoBar(parts: seq<string>)
    ensures forall p :: p in Pieces(parts) ==> '|' !in p
  {
    if parts != [] {
      SplitHasNoSeparator(parts[0], '|');
      PiecesHoldNoBar(parts[1..]);
    }
  }

  lemma {:induction false} PiecesJoin(parts: seq<string>)
    requires parts != []
    ensures Pieces(parts) != [] && Join(Pieces(parts), '|') == Join(parts, '|')
  {
    hide Split;
    JoinSplit(parts[0], '|');
    if |parts| == 1 {
      assert Pieces(parts[1..]) == [] && Pieces(parts) == Split(parts[0], '|');
    } else {
      PiecesJoin(parts[1..]);
      JoinAppend(Split(parts[0], '|'), Pieces(parts[1..]), '|');
    }
  }

  /** Joined at bars, two lists of parts look alike exactly when they have the same pieces. */
  lemma JoinsExactly(a: seq<string>, b: seq<string>)
    requires a != [] && b != []
    ensures Join(a, '|') == Join(b, '|') <==> Pieces(a) == Pieces(b)
  {
    hide Pieces, Join, Split;
    PiecesJoin(a);
    PiecesJoin(b);
    PiecesHoldNoBar(a);
    PiecesHoldNoBar(b);
    SplitJoin(Pieces(a), '|');
    SplitJoin(Pieces(b), '|');
  }

  /** How many pieces each part has. */
  function Cuts(parts: seq<string>): seq<nat> {
    seq(|parts|, i requires 0 <= i < |parts| => |Split(parts[i], '|')|)
  }

  /** The pieces and where the parts end determine the parts. */
  lemma {:induction false} PiecesAndCuts(a: seq<string>, b: seq<string>)
    requires |a| == |b| && Pieces(a) == Pieces(b) && Cuts(a) == Cuts(b)
    ensures a == b
  {
    hide Split;
    if a != [] {
      var first, first' := Split(a[0], '|'), Split(b[0], '|');
      assert |first| == Cuts(a)[0] == Cuts(b)[0] == |first'|;
      assert Pieces(a)[..|first|] == first && Pieces(b)[..|first|] == first';
      assert Pieces(a)[|first|..] == Pieces(a[1..]) && Pieces(b)[|first|..] == Pieces(b[1..]);
      assert Cuts(a[1..]) == Cuts(a)[1..] && Cuts(b[1..]) == Cuts(b)[1..];
      JoinSplit(a[0], '|');
      JoinSplit(b[0], '|');
      PiecesAndCuts(a[1..], b[1..]);
    }
  }

  /**
   * Two addresses share a key exactly when their parts, up to case and white space, have the same pieces
   * between bars; they are then the same address exactly when each part has as many bars in both.
   */
  lemma AddressKeysExactly(a: Address, b: Address)
    ensures AddressKey(a) == AddressKey(b) <==> Pieces(AddressParts(a)) == Pieces(AddressParts(b))
    ensures AddressParts(a) == AddressParts(b)
            <==> AddressKey(a) == AddressKey(b) && Cuts(AddressParts(a)) == Cuts(AddressParts(b))
  {
    hide Folded, Pieces, Join, Cuts;
    JoinsExactly(AddressParts(a), AddressParts(b));
    if AddressKey(a) == AddressKey(b) && Cuts(AddressParts(a)) == Cuts(AddressParts(b)) {
      PiecesAndCuts(AddressParts(a), AddressParts(b));
    }
  }

  lemma StreetAndBox()
    ensures Join(["", "a|", "b"], '|') == Join(["", "a", "|b"], '|')
  {
    assert ["", "a|", "b"][1..] == ["a|", "b"] && ["a|", "b"][1..] == ["b"];
    assert ["", "a", "|b"][1..] == ["a", "|b"] && ["a", "|b"][1..] == ["|b"];
    assert Join(["", "a|", "b"], '|') == "|a||b";
  }

  /** A bar can end the street or start the PO box: the merge then drops the second address. */
  lemma BarsCollideInAddresses()
    ensures var a := Address("", "a|", "", "", "", "", "b", "", "");
            var b := a.(street := "a", pobox := "|b");
            AddressParts(a) != AddressParts(b) && Union(AddressRule, [a] + [b]) == [a]
  {
    hide Folded, Union, Join;
    var a := Address("", "a|", "", "", "", "", "b", "", "");
    var b := a.(street := "a", pobox := "|b");
    FoldedStreets();
    StreetAndBox();
    var rest := ["", "", "", "", "", ""];
    JoinAppend(["", "a|", "b"], rest, '|');
    JoinAppend(["", "a", "|b"], rest, '|');
    assert AddressParts(a) == ["", "a|", "b"] + rest && AddressParts(b) == ["", "a", "|b"] + rest;
    assert AddressParts(a)[1] != AddressParts(b)[1];
    SecondIsDropped(AddressRule, a, b);
  }

  lemma FoldedStreets()
    ensures Folded("a|") == "a|" && Folded("b") == "b" && Folded("a") == "a" && Folded("|b") == "|b" && Folded("") == ""
  {
    hide TrimSpace;
    TrimSpaceTrims("a|");
    TrimSpaceTrims("b");
    TrimSpaceTrims("a");
    TrimSpaceTrims("|b");
    TrimSpaceTrims("");
  }

  // The lists of a contact

  function PhoneRule(e: Entry): Rule {
    if PhoneKey(e.value) == "" then Always else Once(PhoneEntryKey(e))
  }

  function CircleRule(name: string): Rule {
    if Folded(name) == "" then Drop else Once(Folded(name))
  }

  function AddressRule(a: Address): Rule {
    Once(AddressKey(a))
  }

  datatype Lists = Lists(emails: seq<Entry>, phones: seq<Entry>, addresses: seq<Address>, urls: seq<Entry>,
                         impps: seq<Entry>, circles: seq<string>)

  const NO_LISTS := Lists([], [], [], [], [], [])

  function MergedLists(a: Lists, b: Lists): Lists {
    Lists(Union(EntryRule, a.emails + b.emails), Union(PhoneRule, a.phones + b.phones),
          Union(AddressRule, a.addresses + b.addresses), Union(EntryRule, a.urls + b.urls),
          Union(EntryRule, a.impps + b.impps), Union(CircleRule, a.circles + b.circles))
  }

  method MergeLists(a: Lists, b: Lists) returns (merged: Lists)
    ensures merged == MergedLists(a, b)
  {
    var emails := UnionLists(EntryRule, a.emails, b.emails);
    var phones := UnionLists(PhoneRule, a.phones, b.phones);
    var addresses := UnionLists(AddressRule, a.addresses, b.addresses);
    var urls := UnionLists(EntryRule, a.urls, b.urls);
    var impps := UnionLists(EntryRule, a.impps, b.impps);
    var circles := UnionLists(CircleRule, a.circles, b.circles);
    merged := Lists(emails, phones, addresses, urls, impps, circles);
  }

  // What the merged lists hold

  lemma DigitsAre(c: char, a: string, b: string)
    ensures Digits([c]) == if '0' <= c <= '9' then [c] else ""
    ensures Digits(a + b) == Digits(a) + Digits(b)
  {
    assert [c][1..] == "" && Digits("") == "";
    DigitsAppend(a, b);
  }

  lemma {:induction false} DigitsAppend(a: string, b: string)
    ensures Digits(a + b) == Digits(a) + Digits(b)
  {
    if a == "" {
      assert a + b == b;
    } else {
      assert (a + b)[1..] == a[1..] + b;
      DigitsAppend(a[1..], b);
    }
  }

  /** A number of fewer than seven digits has no key; the key of any other is its last ten digits, or all of them. */
  lemma PhoneKeyExactly(phone: string)
    ensures var d, key := Digits(phone), PhoneKey(phone);
            if |d| < 7 then key == "" else HasSuffix(d, key) && |key| == (if |d| < 10 then |d| else 10)
  {
  }

  /** Type and value, trimmed, in lower case and joined at a bar, are the same text. */
  predicate SameText(a: Entry, b: Entry) {
    Lower(TrimSpace(a.kind)) + "|" + Lower(TrimSpace(a.value))
    == Lower(TrimSpace(b.kind)) + "|" + Lower(TrimSpace(b.value))
  }

  /** Two numbers of seven digits or more, of one type, with the same last ten digits. */
  predicate SameNumber(a: Entry, b: Entry) {
    && Lower(TrimSpace(a.kind)) == Lower(TrimSpace(b.kind))
    && |Digits(a.value)| >= 7 && |Digits(b.value)| >= 7 && LastTen(Digits(a.value)) == LastTen(Digits(b.value))
  }

  function LastTen(digits: string): string {
    if |digits| <= 10 then digits else digits[|digits| - 10..]
  }

  /** The nine parts, trimmed, in lower case and joined at bars, are the same text. */
  predicate SameAddressText(a: Address, b: Address) {
    AddressText(a) == AddressText(b)
  }

  function AddressText(a: Address): string {
    Lower(TrimSpace(a.kind)) + "|" + (Lower(TrimSpace(a.street)) + "|" + (Lower(TrimSpace(a.pobox)) + "|"
    + (Lower(TrimSpace(a.apartment)) + "|" + (Lower(TrimSpace(a.floor)) + "|" + (Lower(TrimSpace(a.city)) + "|"
    + (Lower(TrimSpace(a.region)) + "|" + (Lower(TrimSpace(a.postal)) + "|" + Lower(TrimSpace(a.country)))))))))
  }

  lemma {:induction false} JoinBars(parts: seq<string>)
    ensures |parts| > 1 ==> Join(parts, '|') == parts[0] + "|" + Join(parts[1..], '|')
  {
  }

  lemma AddressTextIsKey(a: Address)
    ensures AddressKey(a) == AddressText(a)
  {
    hide Lower, TrimSpace;
    var p := AddressParts(a);
    assert p[1..][1..] == p[2..] && p[2..][1..] == p[3..] && p[3..][1..] == p[4..] && p[4..][1..] == p[5..];
    assert p[5..][1..] == p[6..] && p[6..][1..] == p[7..] && p[7..][1..] == p[8..];
    hide Join;
    JoinBars(p);
    JoinBars(p[1..]);
    JoinBars(p[2..]);
    JoinBars(p[3..]);
    JoinBars(p[4..]);
    JoinBars(p[5..]);
    JoinBars(p[6..]);
    JoinBars(p[7..]);
    LastPart(p[8..]);
  }

  lemma LastPart(parts: seq<string>)
    requires |parts| == 1
    ensures Join(parts, '|') == parts[0]
  {
  }

  predicate SameCircle(a: string, b: string) {
    Lower(TrimSpace(a)) == Lower(TrimSpace(b)) != ""
  }

  predicate NotBlank(name: string) {
    TrimSpace(name) != ""
  }

  predicate Any<T>(e: T) {
    true
  }

  predicate Never<T>(a: T, b: T) {
    false
  }

  /** `merged` is, in order, what counts of `entries` and is not the same as something before it. */
  ghost predicate Firsts<T(!new)>(entries: seq<T>, counts: T -> bool, same: (T, T) -> bool, merged: seq<T>) {
    exists places :: FirstsAt(entries, counts, same, merged, places)
  }

  ghost predicate FirstsAt<T>(entries: seq<T>, counts: T -> bool, same: (T, T) -> bool, merged: seq<T>,
                              places: seq<nat>)
  {
    && |places| == |merged|
    && (forall k :: 0 <= k < |places| ==> places[k] < |entries| && entries[places[k]] == merged[k])
    && (forall j, k :: 0 <= j < k < |places| ==> places[j] < places[k])
    && forall i :: 0 <= i < |entries| ==> (i in places <==> IsFirst(entries, counts, same, i))
  }

  predicate IsFirst<T>(entries: seq<T>, counts: T -> bool, same: (T, T) -> bool, i: nat)
    requires i < |entries|
  {
    counts(entries[i]) && forall j :: 0 <= j < i ==> !same(entries[j], entries[i])
  }

  lemma FirstsGrow<T(!new)>(entries: seq<T>, e: T, counts: T -> bool, same: (T, T) -> bool, merged: seq<T>,
                            places: seq<nat>)
    requires FirstsAt(entries, counts, same, merged, places)
    ensures var n := |entries|;
            if IsFirst(entries + [e], counts, same, n)
            then FirstsAt(entries + [e], counts, same, merged + [e], places + [n])
            else FirstsAt(entries + [e], counts, same, merged, places)
  {
    var n, all := |entries|, entries + [e];
    forall i | 0 <= i < n ensures IsFirst(all, counts, same, i) <==> IsFirst(entries, counts, same, i) {
      assert forall j :: 0 <= j <= i ==> all[j] == entries[j];
    }
    assert n !in places;
  }

  /** An entry is the first of its key exactly when the key is not among those before. */
  lemma FirstOfKey<T(!new)>(rule: T -> Rule, entries: seq<T>, e: T, counts: T -> bool, same: (T, T) -> bool)
    requires forall e :: counts(e) <==> !rule(e).Drop?
    requires forall e, f :: same(e, f) <==> rule(e).Once? && rule(e) == rule(f)
    ensures IsFirst(entries + [e], counts, same, |entries|)
            <==> !rule(e).Drop? && (rule(e).Once? ==> rule(e).key !in Keys(rule, entries))
  {
    var all := entries + [e];
    assert all[|entries|] == e && forall j :: 0 <= j < |entries| ==> all[j] == entries[j];
  }

  lemma {:induction false} UnionFirsts<T(!new)>(rule: T -> Rule, entries: seq<T>, counts: T -> bool,
                                                same: (T, T) -> bool) returns (places: seq<nat>)
    requires forall e :: counts(e) <==> !rule(e).Drop?
    requires forall e, f :: same(e, f) <==> rule(e).Once? && rule(e) == rule(f)
    ensures FirstsAt(entries, counts, same, Union(rule, entries), places)
  {
    hide Keys, FirstsAt, IsFirst;
    if entries == [] {
      places := [];
      NoFirsts(counts, same);
    } else {
      var n := |entries| - 1;
      places := UnionFirsts(rule, entries[..n], counts, same);
      FirstOfKey(rule, entries[..n], entries[n], counts, same);
      FirstsGrow(entries[..n], entries[n], counts, same, Union(rule, entries[..n]), places);
      assert entries == entries[..n] + [entries[n]];
      if IsFirst(entries, counts, same, n) {
        places := places + [n];
      }
    }
  }

  lemma NoFirsts<T(!new)>(counts: T -> bool, same: (T, T) -> bool)
    ensures FirstsAt([], counts, same, [], [])
  {
  }

  lemma UnionOf<T(!new)>(rule: T -> Rule, entries: seq<T>, counts: T -> bool, same: (T, T) -> bool)
    requires forall e :: counts(e) <==> !rule(e).Drop?
    requires forall e, f :: same(e, f) <==> rule(e).Once? && rule(e) == rule(f)
    ensures Firsts(entries, counts, same, Union(rule, entries))
  {
    var places := UnionFirsts(rule, entries, counts, same);
  }

  lemma TextsUnited(entries: seq<Entry>)
    ensures Firsts(entries, Any, SameText, Union(EntryRule, entries))
  {
    hide Union, Firsts, Lower, TrimSpace;
    UnionOf(EntryRule, entries, Any, SameText);
  }

  lemma KeyIsLastTen(phone: string)
    ensures PhoneKey(phone) == "" <==> |Digits(phone)| < 7
    ensures |Digits(phone)| >= 7 ==> PhoneKey(phone) == LastTen(Digits(phone))
  {
    hide Digits;
  }

  lemma NumbersAreSame(a: Entry, b: Entry)
    ensures SameNumber(a, b) <==> PhoneRule(a).Once? && PhoneRule(a) == PhoneRule(b)
  {
    PhoneKeysAreExact(a, b);
    KeyIsLastTen(a.value);
    KeyIsLastTen(b.value);
    hide Lower, TrimSpace, Digits, PhoneEntryKey, PhoneKey, LastTen;
  }

  lemma NumbersUnited(entries: seq<Entry>)
    ensures Firsts(entries, Any, SameNumber, Union(PhoneRule, entries))
  {
    hide Union, Firsts, SameNumber, PhoneEntryKey;
    forall e, f ensures SameNumber(e, f) <==> PhoneRule(e).Once? && PhoneRule(e) == PhoneRule(f) {
      NumbersAreSame(e, f);
    }
    UnionOf(PhoneRule, entries, Any, SameNumber);
  }

  lemma AddressesUnited(entries: seq<Address>)
    ensures Firsts(entries, Any, SameAddressText, Union(AddressRule, entries))
  {
    hide Union, Firsts, AddressKey, AddressText;
    forall a, b ensures SameAddressText(a, b) <==> AddressRule(a) == AddressRule(b) {
      AddressTextIsKey(a);
      AddressTextIsKey(b);
    }
    UnionOf(AddressRule, entries, Any, SameAddressText);
  }

  lemma CirclesUnited(entries: seq<string>)
    ensures Firsts(entries, NotBlank, SameCircle, Union(CircleRule, entries))
  {
    hide Union, Firsts, TrimSpace;
    UnionOf(CircleRule, entries, NotBlank, SameCircle);
  }

  /**
   * Each merged list is, of the keeper's entries and then the other contact's, in order, those that are not
   * the same as an earlier one. Emails, URLs and handles are the same by the joined text of type and value,
   * numbers by type and last ten digits if they have seven, addresses by the joined text of their nine parts,
   * circles by name; blank circles are dropped.
   */
  lemma MergedListsAreFirsts(a: Lists, b: Lists)
    ensures var m := MergedLists(a, b);
            && Firsts(a.emails + b.emails, Any, SameText, m.emails)
            && Firsts(a.phones + b.phones, Any, SameNumber, m.phones)
            && Firsts(a.addresses + b.addresses, Any, SameAddressText, m.addresses)
            && Firsts(a.urls + b.urls, Any, SameText, m.urls)
            && Firsts(a.impps + b.impps, Any, SameText, m.impps)
            && Firsts(a.circles + b.circles, NotBlank, SameCircle, m.circles)
  {
    hide Union, Firsts;
    TextsUnited(a.emails + b.emails);
    NumbersUnited(a.phones + b.phones);
    AddressesUnited(a.addresses + b.addresses);
    TextsUnited(a.urls + b.urls);
    TextsUnited(a.impps + b.impps);
    CirclesUnited(a.circles + b.circles);
  }

  /** In such a list nothing that counts is missing, and nothing is there twice. */
  lemma FirstsMissNothing<T(!new)>(entries: seq<T>, counts: T -> bool, same: (T, T) -> bool, merged: seq<T>, i: nat)
    returns (k: nat)
    requires Firsts(entries, counts, same, merged) && i < |entries| && counts(entries[i])
    requires forall e, f, g :: same(e, f) && same(f, g) ==> same(e, g)
    requires forall e, f :: same(e, f) && counts(f) ==> counts(e)
    ensures k < |merged| && (merged[k] == entries[i] || same(merged[k], entries[i]))
    decreases i
  {
    var places :| FirstsAt(entries, counts, same, merged, places);
    if i in places {
      k :| 0 <= k < |places| && places[k] == i;
    } else {
      var j :| 0 <= j < i && same(entries[j], entries[i]);
      k := FirstsMissNothing(entries, counts, same, merged, j);
    }
  }

  /** No entry of either contact is lost: the merged list has it, or one that is the same. */
  lemma ListsLoseNothing(a: Lists, b: Lists)
    ensures var m := MergedLists(a, b);
            && (forall e :: e in a.emails + b.emails ==> exists f :: f in m.emails && SameText(f, e))
            && (forall e :: e in a.urls + b.urls ==> exists f :: f in m.urls && SameText(f, e))
            && (forall e :: e in a.impps + b.impps ==> exists f :: f in m.impps && SameText(f, e))
            && (forall e :: e in a.phones + b.phones ==> e in m.phones || exists f :: f in m.phones && SameNumber(f, e))
            && (forall e :: e in a.addresses + b.addresses ==> exists f :: f in m.addresses && SameAddressText(f, e))
            && (forall e :: e in a.circles + b.circles && NotBlank(e) ==>
                  exists f :: f in m.circles && SameCircle(f, e))
  {
    MergedListsAreFirsts(a, b);
    hide MergedLists, Firsts, TrimSpace, Digits, AddressText;
    var m := MergedLists(a, b);
    EachIsThere(a.emails + b.emails, Any, SameText, m.emails);
    EachIsThere(a.urls + b.urls, Any, SameText, m.urls);
    EachIsThere(a.impps + b.impps, Any, SameText, m.impps);
    EachIsThere(a.phones + b.phones, Any, SameNumber, m.phones);
    EachIsThere(a.addresses + b.addresses, Any, SameAddressText, m.addresses);
    EachIsThere(a.circles + b.circles, NotBlank, SameCircle, m.circles);
  }

  lemma EachIsThere<T(!new)>(entries: seq<T>, counts: T -> bool, same: (T, T) -> bool, merged: seq<T>)
    requires Firsts(entries, counts, same, merged)
    requires forall e, f, g :: same(e, f) && same(f, g) ==> same(e, g)
    requires forall e, f :: same(e, f) && counts(f) ==> counts(e)
    ensures forall e :: e in entries && counts(e) ==> e in merged || exists f :: f in merged && same(f, e)
  {
    hide Firsts;
    forall e | e in entries && counts(e) ensures e in merged || exists f :: f in merged && same(f, e) {
      var i :| 0 <= i < |entries| && entries[i] == e;
      var k := FirstsMissNothing(entries, counts, same, merged, i);
      assert merged[k] in merged;
    }
  }
}
