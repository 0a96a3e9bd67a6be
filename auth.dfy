/**
  Role classification at sign-in: an e-mail address is an operator's
  ("admin") when it appears in the comma-separated list configured in
  ADMIN_EMAILS, after every space, tab, line feed and carriage return in
  the list entry is deleted. The list is a parameter here.
 */
module Auth {
  import opened Models

  predicate IsWhitespace(c: char)
  {
    c == ' ' || c == '\t' || c == '\n' || c == '\r'
  }

  // ---- Splitting the list ----

  /**
    `s` cut at every comma: k commas give k + 1 pieces, none holding a
    comma. Defined byte by byte from the end, the way the list is read.
   */
  function SplitCommas(s: string): (parts: seq<string>)
    ensures |parts| >= 1
    ensures forall i :: 0 <= i < |parts| ==> ',' !in parts[i]
    decreases |s|
  {
    if s == [] then [[]] else Extend(SplitCommas(s[..|s| - 1]), s[|s| - 1])
  }

  /** One more byte read: a comma opens a new piece, any other byte grows the last one. */
  function Extend(p: seq<string>, c: char): (q: seq<string>)
    requires |p| >= 1
    ensures |q| >= 1
  {
    if c == ',' then p + [[]] else p[..|p| - 1] + [p[|p| - 1] + [c]]
  }

  lemma ExtendAppend(P: seq<string>, Q: seq<string>, c: char)
    requires |Q| >= 1
    ensures Extend(P + Q, c) == P + Extend(Q, c)
  {
    if c != ',' {
      assert (P + Q)[..|P + Q| - 1] == P + Q[..|Q| - 1];
    }
  }

  /** The pieces put back together with a comma between neighbours. */
  function JoinCommas(parts: seq<string>): string
    requires |parts| >= 1
  {
    if |parts| == 1 then parts[0]
    else JoinCommas(parts[..|parts| - 1]) + [','] + parts[|parts| - 1]
  }

  /** Appending one byte either starts a new piece (a comma) or extends the last one. */
  lemma SplitSnoc(s: string, c: char)
    ensures SplitCommas(s + [c]) == Extend(SplitCommas(s), c)
  {
    assert (s + [c])[..|s|] == s;
  }

  /** Splitting loses nothing: the pieces join back to the list. */
  lemma {:induction false} SplitThenJoin(s: string)
    ensures JoinCommas(SplitCommas(s)) == s
    decreases |s|
  {
    if s != [] {
      var s', c := s[..|s| - 1], s[|s| - 1];
      assert s == s' + [c];
      SplitThenJoin(s');
      var p := SplitCommas(s');
      var n := |p|;
      if c != ',' && n > 1 {
        var q := p[..n - 1] + [p[n - 1] + [c]];
        assert q[..n - 1] == p[..n - 1];
        assert JoinCommas(q) == JoinCommas(p[..n - 1]) + [','] + (p[n - 1] + [c]);
      }
    }
  }

  lemma {:induction false} SplitWithoutComma(s: string)
    requires ',' !in s
    ensures SplitCommas(s) == [s]
    decreases |s|
  {
    if s != [] {
      SplitWithoutComma(s[..|s| - 1]);
      assert s[..|s| - 1] + [s[|s| - 1]] == s;
    }
  }

  /** Splitting `x` + "," + `b` splits `x` and `b` separately. */
  lemma {:induction false} SplitConcat(x: string, b: string)
    ensures SplitCommas(x + [','] + b) == SplitCommas(x) + SplitCommas(b)
    decreases |b|
  {
    if b == [] {
      assert x + [','] + b == x + [','];
      SplitSnoc(x, ',');
    } else {
      var b', c := b[..|b| - 1], b[|b| - 1];
      SplitConcat(x, b');
      assert x + [','] + b == (x + [','] + b') + [c];
      SplitSnoc(x + [','] + b', c);
      SplitSnoc(b', c);
      ExtendAppend(SplitCommas(x), SplitCommas(b'), c);
      assert b' + [c] == b;
    }
  }

  lemma SplitAfterPiece(a: string, b: string)
    requires ',' !in a
    ensures SplitCommas(a + [','] + b) == [a] + SplitCommas(b)
  {
    SplitConcat(a, b);
    SplitWithoutComma(a);
  }

  /** Comma-free pieces come back unchanged from splitting their join. */
  lemma {:induction false} JoinThenSplit(parts: seq<string>)
    requires |parts| >= 1
    requires forall i :: 0 <= i < |parts| ==> ',' !in parts[i]
    ensures SplitCommas(JoinCommas(parts)) == parts
    decreases |parts|
  {
    var n := |parts|;
    if n == 1 {
      SplitWithoutComma(parts[0]);
    } else {
      JoinThenSplit(parts[..n - 1]);
      SplitConcat(JoinCommas(parts[..n - 1]), parts[n - 1]);
      SplitWithoutComma(parts[n - 1]);
      assert parts[..n - 1] + [parts[n - 1]] == parts;
    }
  }

  /**
    The entries determineUserRole collects: the comma pieces of the list,
    except that a comma as the very first byte opens no empty entry. An
    empty list has no entries.
   */
  function AdminEntries(list: string): (entries: seq<string>)
    ensures list == [] <==> entries == []
  {
    if list == [] then []
    else if list[0] == ',' then SplitCommas(list[1..])
    else SplitCommas(list)
  }

  lemma EntriesSnoc(s: string, c: char)
    ensures var p := AdminEntries(s);
      AdminEntries(s + [c]) ==
        if c == ',' then p + [[]]
        else if p == [] then [[c]]
        else p[..|p| - 1] + [p[|p| - 1] + [c]]
  {
    if s == [] {
      assert [c][1..] == [];
      assert SplitCommas([]) == [[]];
      assert [c] + [] == [c];
    } else if s[0] == ',' {
      SplitSnoc(s[1..], c);
      assert (s + [c])[1..] == s[1..] + [c];
    } else {
      SplitSnoc(s, c);
    }
  }

  // ---- Deleting whitespace ----

  /** `s` with every space, tab, line feed and carriage return deleted, wherever it stands. */
  function DeleteWhitespace(s: string): (r: string)
    ensures |r| <= |s|
    ensures forall c :: c in r ==> c in s && !IsWhitespace(c)
    decreases |s|
  {
    if s == [] then []
    else DeleteWhitespace(s[..|s| - 1]) + (if IsWhitespace(s[|s| - 1]) then [] else [s[|s| - 1]])
  }

  /** Deletion works piece by piece, so whitespace inside an entry goes too, not only at its ends. */
  lemma {:induction false} DeleteWhitespaceAppend(a: string, b: string)
    ensures DeleteWhitespace(a + b) == DeleteWhitespace(a) + DeleteWhitespace(b)
    decreases |b|
  {
    if b != [] {
      var b' := b[..|b| - 1];
      DeleteWhitespaceAppend(a, b');
      assert (a + b)[..|a + b| - 1] == a + b';
      assert (a + b)[|a + b| - 1] == b[|b| - 1];
    } else {
      assert a + b == a;
    }
  }

  lemma {:induction false} DeleteWhitespaceKeeps(s: string)
    requires forall c :: c in s ==> !IsWhitespace(c)
    ensures DeleteWhitespace(s) == s
    decreases |s|
  {
    if s != [] {
      DeleteWhitespaceKeeps(s[..|s| - 1]);
      assert s[..|s| - 1] + [s[|s| - 1]] == s;
    }
  }

  // ---- Classification ----

  /** `email` equals one of `entries` once that entry's whitespace is deleted. */
  ghost predicate Matches(email: string, entries: seq<string>)
  {
    exists i :: 0 <= i < |entries| && DeleteWhitespace(entries[i]) == email
  }

  /** `email` is one of the addresses of the comma-separated `list`. */
  ghost predicate IsListedAdmin(email: string, list: string)
  {
    Matches(email, AdminEntries(list))
  }

  /** The inner loop of the classification: copy every byte that is not whitespace. */
  method TrimEntry(entry: string) returns (trimmed: string)
    ensures trimmed == DeleteWhitespace(entry)
  {
    trimmed := "";
    for j := 0 to |entry|
      invariant trimmed == DeleteWhitespace(entry[..j])
    {
      assert entry[..j + 1][..j] == entry[..j];
      if !IsWhitespace(entry[j]) {
        trimmed := trimmed + [entry[j]];
      }
    }
    assert entry[..|entry|] == entry;
  }

  /** The first loop of the classification: grow the entry list byte by byte. */
  method CollectEntries(adminEmails: string) returns (emails: seq<string>)
    ensures emails == AdminEntries(adminEmails)
  {
    emails := [];
    for i := 0 to |adminEmails|
      invariant emails == AdminEntries(adminEmails[..i])
    {
      var e := adminEmails[i];
      EntriesSnoc(adminEmails[..i], e);
      assert adminEmails[..i + 1] == adminEmails[..i] + [e];
      if e == ',' {
        emails := emails + [""];
      } else if |emails| == 0 {
        emails := emails + [[e]];
      } else {
        emails := emails[|emails| - 1 := emails[|emails| - 1] + [e]];
      }
    }
    assert adminEmails[..|adminEmails|] == adminEmails;
  }

  /** The second loop of the classification: compare `email` with each entry, whitespace deleted. */
  method FindEntry(email: string, emails: seq<string>) returns (found: bool)
    ensures found <==> Matches(email, emails)
  {
    for k := 0 to |emails|
      invariant forall j :: 0 <= j < k ==> DeleteWhitespace(emails[j]) != email
    {
      var trimmed := TrimEntry(emails[k]);
      if trimmed == email {
        return true;
      }
    }
    return false;
  }

  /**
    determineUserRole with each byte appended to its entry as that byte.
    The result is "admin" exactly for a listed e-mail and "user" otherwise.
   */
  method DetermineUserRole(email: string, adminEmails: string) returns (role: string)
    ensures role == RoleAdmin || role == RoleUser
    ensures role == RoleAdmin <==> IsListedAdmin(email, adminEmails)
  {
    if adminEmails == "" {
      return RoleUser;
    }
    var emails := CollectEntries(adminEmails);
    var found := FindEntry(email, emails);
    role := if found then RoleAdmin else RoleUser;
  }

  // ---- Properties of the classification ----

  /** With no list configured nobody is an operator. */
  lemma EmptyListHasNoAdmin(email: string)
    ensures !IsListedAdmin(email, "")
  {
  }

  /** One entry, no whitespace: only that exact address matches, not one that merely contains it. */
  lemma {:induction false} SingleEntryMatchesExactly(email: string, entry: string)
    requires ',' !in entry && entry != [] && entry[0] != ','
    requires forall c :: c in entry ==> !IsWhitespace(c)
    ensures IsListedAdmin(email, entry) <==> email == entry
  {
    SplitWithoutComma(entry);
    DeleteWhitespaceKeeps(entry);
    assert DeleteWhitespace(AdminEntries(entry)[0]) == entry;
  }

  /** A leading comma adds no entry, so it does not make the empty e-mail an operator. */
  lemma {:induction false} LeadingCommaAddsNoEntry(entry: string)
    requires ',' !in entry && entry != []
    requires forall c :: c in entry ==> !IsWhitespace(c)
    ensures AdminEntries([','] + entry) == [entry]
    ensures !IsListedAdmin("", [','] + entry)
  {
    assert ([','] + entry)[1..] == entry;
    SplitWithoutComma(entry);
    DeleteWhitespaceKeeps(entry);
  }

  /** A trailing comma does add an empty entry, which the empty e-mail matches. */
  lemma {:induction false} TrailingCommaAddsEmptyEntry(entry: string)
    requires ',' !in entry && entry != [] && entry[0] != ','
    ensures AdminEntries(entry + [',']) == [entry, []]
    ensures IsListedAdmin("", entry + [','])
  {
    SplitAfterPiece(entry, []);
    assert entry + [','] + [] == entry + [','];
    assert SplitCommas([]) == [[]];
    assert DeleteWhitespace(AdminEntries(entry + [','])[1]) == [];
  }

  /** The role tests with one configured address, or none. */
  lemma SingleAddressExamples()
    ensures !IsListedAdmin("user@example.com", "")
    ensures IsListedAdmin("admin@example.com", "admin@example.com")
    ensures !IsListedAdmin("user@example.com", "admin@example.com")
    ensures !IsListedAdmin("notadmin@example.com", "admin@example.com")
  {
    SingleEntryMatchesExactly("admin@example.com", "admin@example.com");
    SingleEntryMatchesExactly("user@example.com", "admin@example.com");
    SingleEntryMatchesExactly("notadmin@example.com", "admin@example.com");
  }

  /**
    An address listed between two others is an operator's (the role test
    with three addresses).
   */
  lemma {:induction false} ListedAmongOthers(email: string, before: string, after: string)
    requires before != [] && before[0] != ','
    requires ',' !in before && ',' !in email && ',' !in after
    requires forall c :: c in email ==> !IsWhitespace(c)
    ensures IsListedAdmin(email, before + [','] + email + [','] + after)
  {
    var list := before + [','] + email + [','] + after;
    var tail := email + [','] + after;
    assert list == before + [','] + tail;
    SplitAfterPiece(email, after);
    SplitAfterPiece(before, tail);
    assert list[0] == before[0];
    assert AdminEntries(list)[1] == email;
    DeleteWhitespaceKeeps(email);
    assert DeleteWhitespace(AdminEntries(list)[1]) == email;
  }

  /**
    A space after a comma is deleted before comparing (the role test with
    "admin1@example.com, admin@example.com").
   */
  lemma {:induction false} SpaceAfterCommaIgnored(email: string, before: string)
    requires before != [] && before[0] != ','
    requires ',' !in before && ',' !in email
    requires forall c :: c in email ==> !IsWhitespace(c)
    ensures IsListedAdmin(email, before + [','] + ([' '] + email))
  {
    var list := before + [','] + ([' '] + email);
    SplitAfterPiece(before, [' '] + email);
    SplitWithoutComma([' '] + email);
    assert list[0] == before[0];
    assert AdminEntries(list)[1] == [' '] + email;
    DeleteWhitespaceAppend([' '], email);
    DeleteWhitespaceKeeps(email);
    assert DeleteWhitespace([' ']) == [];
    assert DeleteWhitespace(AdminEntries(list)[1]) == email;
  }

  // ---- As written: each byte appended through a rune conversion ----

  /**
    What Go's string(e) yields for one byte e of the list: the UTF-8
    encoding of the code point e, so a byte from 0x80 to 0xFF becomes two
    bytes. (A char above 0xFF never stands for a byte; it is kept as is.)
   */
  function RuneBytes(c: char): (r: string)
    ensures c < '\U{80}' ==> r == [c]
  {
    if c < '\U{80}' || c >= '\U{100}' then [c]
    else [(0xC0 + c as int / 64) as char, (0x80 + c as int % 64) as char]
  }

  /** A byte from 0x80 up becomes two bytes, neither a comma nor whitespace. */
  lemma RuneBytesOfHighByte(c: char)
    requires '\U{80}' <= c < '\U{100}'
    ensures var r := RuneBytes(c); |r| == 2 && ',' !in r && !IsWhitespace(r[0]) && !IsWhitespace(r[1])
  {
  }

  /** A whole entry as the loop builds it: every byte passed through RuneBytes. */
  function Widen(s: string): (w: string)
    ensures |w| >= |s|
    decreases |s|
  {
    if s == [] then [] else Widen(s[..|s| - 1]) + RuneBytes(s[|s| - 1])
  }

  function WidenEach(p: seq<string>): (q: seq<string>)
    ensures |q| == |p|
    decreases |p|
  {
    if p == [] then [] else WidenEach(p[..|p| - 1]) + [Widen(p[|p| - 1])]
  }

  lemma {:induction false} WidenEachAt(p: seq<string>, i: nat)
    requires i < |p|
    ensures WidenEach(p)[i] == Widen(p[i])
    decreases |p|
  {
    if i < |p| - 1 {
      WidenEachAt(p[..|p| - 1], i);
    }
  }

  predicate IsAscii(s: string)
  {
    forall i :: 0 <= i < |s| ==> s[i] < '\U{80}'
  }

  /**
    What the source accepts: `email` equals some widened entry once its
    whitespace is deleted. Ranging over the runes of a widened entry and
    re-encoding each gives back the same bytes, so the deletion is the
    byte-wise one.
   */
  ghost predicate IsListedAdminAsWritten(email: string, list: string)
  {
    Matches(email, WidenEach(AdminEntries(list)))
  }

  lemma WidenSnoc(s: string, c: char)
    ensures Widen(s + [c]) == Widen(s) + RuneBytes(c)
  {
    assert (s + [c])[..|s|] == s;
  }

  lemma WidenEachSnoc(p: seq<string>, x: string)
    ensures WidenEach(p + [x]) == WidenEach(p) + [Widen(x)]
  {
    assert (p + [x])[..|p|] == p;
  }

  lemma WidenLastSnoc(p0: seq<string>, l: string, c: char)
    ensures var w := WidenEach(p0 + [l]);
      WidenEach(p0 + [l + [c]]) == w[|w| - 1 := w[|w| - 1] + RuneBytes(c)]
  {
    WidenEachSnoc(p0, l);
    WidenEachSnoc(p0, l + [c]);
    WidenSnoc(l, c);
    var w0 := WidenEach(p0);
    assert (w0 + [Widen(l)])[|w0| := Widen(l) + RuneBytes(c)] == w0 + [Widen(l) + RuneBytes(c)];
  }

  /** One byte of the first loop as written: a comma opens an entry, any other byte is widened onto the last. */
  function AddByteAsWritten(emails: seq<string>, c: char): (r: seq<string>)
  {
    if c == ',' then emails + [""]
    else if emails == [] then [RuneBytes(c)]
    else emails[|emails| - 1 := emails[|emails| - 1] + RuneBytes(c)]
  }

  /** The widened entries grow with each byte exactly as the entries do. */
  lemma WidenedEntriesSnoc(s: string, c: char)
    ensures WidenEach(AdminEntries(s + [c])) == AddByteAsWritten(WidenEach(AdminEntries(s)), c)
  {
    var p := AdminEntries(s);
    EntriesSnoc(s, c);
    if c == ',' {
      WidenEachSnoc(p, []);
    } else if p == [] {
      WidenEachSnoc([], [c]);
      WidenSnoc([], c);
      assert [] + [c] == [c];
      assert [] + [[c]] == [[c]];
      assert AdminEntries(s + [c]) == [[c]];
      assert Widen([c]) == RuneBytes(c);
      assert WidenEach([[c]]) == [RuneBytes(c)];
    } else {
      var p0, l := p[..|p| - 1], p[|p| - 1];
      assert p == p0 + [l];
      WidenLastSnoc(p0, l, c);
    }
  }

  /** The entries the first loop as written holds after `n` bytes. */
  function AsWrittenUpTo(s: string, n: nat): seq<string>
    requires n <= |s|
  {
    if n == 0 then [] else AddByteAsWritten(AsWrittenUpTo(s, n - 1), s[n - 1])
  }

  lemma {:induction false} AsWrittenUpToWidens(s: string, n: nat)
    requires n <= |s|
    ensures AsWrittenUpTo(s, n) == WidenEach(AdminEntries(s[..n]))
    decreases n
  {
    if n == 0 {
      assert s[..0] == [];
    } else {
      var pre, c := s[..n - 1], s[n - 1];
      assert s[..n] == pre + [c];
      calc {
        AsWrittenUpTo(s, n);
        AddByteAsWritten(AsWrittenUpTo(s, n - 1), c);
        { AsWrittenUpToWidens(s, n - 1); }
        AddByteAsWritten(WidenEach(AdminEntries(pre)), c);
        { WidenedEntriesSnoc(pre, c); }
        WidenEach(AdminEntries(pre + [c]));
      }
    }
  }

  /** The first loop as written. */
  method CollectEntriesAsWritten(adminEmails: string) returns (emails: seq<string>)
    ensures emails == WidenEach(AdminEntries(adminEmails))
  {
    emails := [];
    for i := 0 to |adminEmails|
      invariant emails == AsWrittenUpTo(adminEmails, i)
    {
      var e := adminEmails[i];
      if e == ',' {
        emails := emails + [""];
      } else if |emails| == 0 {
        emails := emails + [RuneBytes(e)];
      } else {
        emails := emails[|emails| - 1 := emails[|emails| - 1] + RuneBytes(e)];
      }
    }
    AsWrittenUpToWidens(adminEmails, |adminEmails|);
    assert adminEmails[..|adminEmails|] == adminEmails;
  }

  /** determineUserRole as written: "admin" exactly for an address the widened list holds. */
  method DetermineUserRoleAsWritten(email: string, adminEmails: string) returns (role: string)
    ensures role == RoleAdmin || role == RoleUser
    ensures role == RoleAdmin <==> IsListedAdminAsWritten(email, adminEmails)
  {
    if adminEmails == "" {
      return RoleUser;
    }
    var emails := CollectEntriesAsWritten(adminEmails);
    for k := 0 to |emails|
      invariant forall j :: 0 <= j < k ==> DeleteWhitespace(emails[j]) != email
    {
      var trimmed := TrimEntry(emails[k]);
      if trimmed == email {
        return RoleAdmin;
      }
    }
    return RoleUser;
  }

  lemma {:induction false} WidenGrows(s: string, k: nat)
    requires k < |s| && '\U{80}' <= s[k] < '\U{100}'
    ensures |Widen(s)| > |s|
    decreases |s|
  {
    var s' := s[..|s| - 1];
    if k < |s| - 1 {
      WidenGrows(s', k);
    } else {
      RuneBytesOfHighByte(s[k]);
    }
  }

  lemma {:induction false} WidenKeepsWhitespaceFree(s: string)
    requires forall c :: c in s ==> !IsWhitespace(c)
    ensures forall c :: c in Widen(s) ==> !IsWhitespace(c)
    decreases |s|
  {
    if s != [] {
      var s', c := s[..|s| - 1], s[|s| - 1];
      assert forall d :: d in s' ==> d in s;
      WidenKeepsWhitespaceFree(s');
      if '\U{80}' <= c < '\U{100}' {
        RuneBytesOfHighByte(c);
      }
      var r := RuneBytes(c);
      assert forall d :: d in r ==> !IsWhitespace(d);
    }
  }

  /**
    The discrepancy: a configured address holding any byte from 0x80 up
    (a UTF-8 encoded non-ASCII letter) is never recognised, although the
    intended classification recognises it.
   */
  lemma {:induction false} NonAsciiAddressNeverMatches(entry: string, k: nat)
    requires entry != [] && entry[0] != ',' && ',' !in entry
    requires forall c :: c in entry ==> !IsWhitespace(c)
    requires k < |entry| && '\U{80}' <= entry[k] < '\U{100}'
    ensures IsListedAdmin(entry, entry)
    ensures !IsListedAdminAsWritten(entry, entry)
  {
    SingleEntryMatchesExactly(entry, entry);
    SplitWithoutComma(entry);
    assert AdminEntries(entry) == [entry];
    assert WidenEach([entry]) == [Widen(entry)] by {
      WidenEachSnoc([], entry);
      assert [] + [entry] == [entry];
    }
    WidenGrows(entry, k);
    WidenKeepsWhitespaceFree(entry);
    DeleteWhitespaceKeeps(Widen(entry));
    assert DeleteWhitespace(Widen(entry)) != entry;
  }

  /** The input that shows it: ADMIN_EMAILS set to "é@x", UTF-8 encoded, and that same e-mail signing in. */
  lemma AccentedAddressExample()
    ensures IsListedAdmin("\U{C3}\U{A9}@x", "\U{C3}\U{A9}@x")
    ensures !IsListedAdminAsWritten("\U{C3}\U{A9}@x", "\U{C3}\U{A9}@x")
  {
    NonAsciiAddressNeverMatches("\U{C3}\U{A9}@x", 0);
  }

  lemma {:induction false} WidenAscii(s: string)
    requires IsAscii(s)
    ensures Widen(s) == s
    decreases |s|
  {
    if s != [] {
      WidenAscii(s[..|s| - 1]);
      assert s[..|s| - 1] + [s[|s| - 1]] == s;
    }
  }

  lemma {:induction false} SplitKeepsAscii(s: string)
    requires IsAscii(s)
    ensures forall i :: 0 <= i < |SplitCommas(s)| ==> IsAscii(SplitCommas(s)[i])
    decreases |s|
  {
    if s != [] {
      SplitKeepsAscii(s[..|s| - 1]);
    }
  }

  /** On a list of plain ASCII addresses the code as written and the intended one agree. */
  lemma AsciiListsAgree(email: string, list: string)
    requires IsAscii(list)
    ensures IsListedAdminAsWritten(email, list) <==> IsListedAdmin(email, list)
  {
    var entries := AdminEntries(list);
    if list != [] {
      if list[0] == ',' {
        SplitKeepsAscii(list[1..]);
      } else {
        SplitKeepsAscii(list);
      }
    }
    forall i | 0 <= i < |entries|
      ensures WidenEach(entries)[i] == entries[i]
    {
      WidenEachAt(entries, i);
      WidenAscii(entries[i]);
    }
    assert WidenEach(entries) == entries;
  }
}
