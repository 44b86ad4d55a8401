/** When two chats share a subscription key. */
module PairNotifyKeys {
  import opened Text
  import opened PairNotify
  import opened PairNotifyRuns

  function AccountText(t: Target): string {
    if t.accountId.Some? then t.accountId.value else ""
  }

  ghost predicate NoBar(s: string) { '|' !in s }

  ghost predicate NoBars(t: Target) {
    NoBar(t.to) && NoBar(AccountText(t)) && NoBar(ThreadText(t.threadId))
  }

  predicate SameParts(t: Target, u: Target) {
    t.to == u.to && AccountText(t) == AccountText(u) && ThreadText(t.threadId) == ThreadText(u.threadId)
  }

  // ---------------------------------------------------------------------------
  // Keys and their parts
  // ---------------------------------------------------------------------------

  function Joined(a: string, b: string, c: string): string { a + "|" + b + "|" + c }

  lemma KeyIsJoined(t: Target)
    ensures Key(t) == Joined(t.to, AccountText(t), ThreadText(t.threadId))
  {
    hide ThreadText;
  }

  lemma JoinedAt(a: string, b: string, c: string, i: nat)
    requires i < |Joined(a, b, c)|
    ensures |Joined(a, b, c)| == |a| + |b| + |c| + 2
    ensures Joined(a, b, c)[i]
         == if i < |a| then a[i] else if i == |a| then '|' else if i < |a| + 1 + |b| then b[i - |a| - 1]
            else if i == |a| + 1 + |b| then '|' else c[i - |a| - |b| - 2]
  {}

  lemma JoinedParts(a: string, b: string, c: string)
    ensures var k := Joined(a, b, c);
      k[..|a|] == a && k[|a| + 1..|a| + 1 + |b|] == b && k[|a| + |b| + 2..] == c
  {}

  /** Without bars in the parts, a joined text has its bars at two places only. */
  lemma BarsOfJoined(a: string, b: string, c: string, i: nat)
    requires NoBar(a) && NoBar(b) && NoBar(c) && i < |Joined(a, b, c)| && Joined(a, b, c)[i] == '|'
    ensures i == |a| || i == |a| + 1 + |b|
  {
    JoinedAt(a, b, c, i);
    hide Joined;
  }

  lemma JoinedIsUnique(a: string, b: string, c: string, a': string, b': string, c': string)
    requires NoBar(a) && NoBar(b) && NoBar(c) && Joined(a, b, c) == Joined(a', b', c')
    ensures a == a' && b == b' && c == c'
  {
    hide NoBar;
    JoinedLength(a', b', c');
    JoinedAt(a', b', c', |a'|);
    JoinedAt(a', b', c', |a'| + 1 + |b'|);
    BarsOfJoined(a, b, c, |a'|);
    BarsOfJoined(a, b, c, |a'| + 1 + |b'|);
    JoinedParts(a, b, c);
    JoinedParts(a', b', c');
  }

  lemma JoinedLength(a: string, b: string, c: string)
    ensures |Joined(a, b, c)| == |a| + |b| + |c| + 2
  {}

  /** All targets under the key of this one have its parts exactly when none of its parts contains a bar. */
  lemma KeyFixesPartsExactly(t: Target)
    ensures (forall u: Target | Key(u) == Key(t) :: SameParts(u, t)) <==> NoBars(t)
  {
    hide Key, Joined, NoBar, ThreadText;
    KeyIsJoined(t);
    if NoBars(t) {
      forall u: Target | Key(u) == Key(t)
        ensures SameParts(u, t)
      {
        KeyIsJoined(u);
        JoinedIsUnique(t.to, AccountText(t), ThreadText(t.threadId), u.to, AccountText(u), ThreadText(u.threadId));
      }
    } else {
      var u := OtherTarget(t);
    }
  }

  lemma OtherTarget(t: Target) returns (u: Target)
    requires !NoBars(t)
    ensures Key(u) == Key(t) && !SameParts(u, t)
  {
    var a, b, c := t.to, AccountText(t), ThreadText(t.threadId);
    hide Key, Joined, ThreadText;
    var a', b', c';
    if !NoBar(a) {
      var i :| 0 <= i < |a| && a[i] == '|';
      a', b', c' := a[..i], a[i + 1..] + "|" + b, c;
      ShiftFirst(a, b, c, i);
    } else if !NoBar(b) {
      var i :| 0 <= i < |b| && b[i] == '|';
      a', b', c' := a, b[..i], b[i + 1..] + "|" + c;
      ShiftSecond(a, b, c, i);
    } else {
      var i :| 0 <= i < |c| && c[i] == '|';
      a', b', c' := a, b + "|" + c[..i], c[i + 1..];
      ShiftThird(a, b, c, i);
    }
    u := Target(a', Some(b'), Some(Name(c')));
    KeyIsJoined(t);
    KeyIsJoined(u);
    NameText(c');
  }

  lemma NameText(name: string)
    ensures ThreadText(Some(Name(name))) == name
  {}

  lemma ShiftFirst(a: string, b: string, c: string, i: nat)
    requires i < |a| && a[i] == '|'
    ensures Joined(a[..i], a[i + 1..] + "|" + b, c) == Joined(a, b, c)
  {
    assert a == a[..i] + "|" + a[i + 1..];
  }

  lemma ShiftSecond(a: string, b: string, c: string, i: nat)
    requires i < |b| && b[i] == '|'
    ensures Joined(a, b[..i], b[i + 1..] + "|" + c) == Joined(a, b, c)
  {
    assert b == b[..i] + "|" + b[i + 1..];
  }

  lemma ShiftThird(a: string, b: string, c: string, i: nat)
    requires i < |c| && c[i] == '|'
    ensures Joined(a, b + "|" + c[..i], c[i + 1..]) == Joined(a, b, c)
  {
    assert c == c[..i] + "|" + c[i + 1..];
  }

  // ---------------------------------------------------------------------------
  // Thread names and thread numbers
  // ---------------------------------------------------------------------------

  lemma {:induction false} DigitsMeaning(n: nat)
    ensures Digits(n) != "" && forall c <- Digits(n) :: '0' <= c <= '9'
  {
    if n >= 10 { DigitsMeaning(n / 10); }
  }

  lemma LastDigit(n: nat)
    ensures var d := Digits(n); d != "" && d[|d| - 1] == "0123456789"[n % 10]
    ensures var d := Digits(n); d[..|d| - 1] == if n < 10 then "" else Digits(n / 10)
  {}

  /** The number that decimal digits stand for. */
  function ValueOf(s: string): int {
    if s == "" then 0 else 10 * ValueOf(s[..|s| - 1]) + (s[|s| - 1] as int - '0' as int)
  }

  lemma {:induction false} DigitsValue(n: nat)
    ensures ValueOf(Digits(n)) == n && (n > 0 ==> Digits(n)[0] != '0')
  {
    hide Digits;
    LastDigit(n);
    LastDigit(n / 10);
    DigitAt(n % 10);
    if n >= 10 {
      DigitsValue(n / 10);
      assert Digits(n)[0] == Digits(n)[..|Digits(n)| - 1][0];
    }
  }

  lemma DigitAt(i: nat)
    requires i < 10
    ensures "0123456789"[i] as int == '0' as int + i
  {}

  /** A number is written in decimal digits without leading zeros, with a dash before it if it is negative. */
  lemma DecimalMeaning(n: int)
    ensures var d := Decimal(n);
      var digits := if n < 0 then d[1..] else d;
      && d != "" && (d[0] == '-' <==> n < 0)
      && digits != "" && (forall c <- digits :: '0' <= c <= '9') && (n != 0 ==> digits[0] != '0')
      && ValueOf(digits) == if n < 0 then -n else n
  {
    hide Digits, ValueOf;
    var m := if n < 0 then -n else n;
    DigitsMeaning(m);
    DigitsValue(m);
    assert Digits(m)[0] in Digits(m);
    if n < 0 { assert Decimal(n)[1..] == Digits(m); }
  }

  lemma DecimalIsUnique(n: int, m: int)
    ensures Decimal(n) == Decimal(m) <==> n == m
  {
    hide Decimal, ValueOf;
    DecimalMeaning(n);
    DecimalMeaning(m);
  }

  /** Are these one thread, or the name and the number of one? */
  predicate SameThread(x: Option<Thread>, y: Option<Thread>) {
    || x == y
    || (x.Some? && y.Some? && x.value.Name? && y.value.Number? && x.value.name == Decimal(y.value.number))
    || (x.Some? && y.Some? && x.value.Number? && y.value.Name? && y.value.name == Decimal(x.value.number))
  }

  lemma SameThreadTextExactly(x: Option<Thread>, y: Option<Thread>)
    requires (x.Some? && x.value.Name? ==> x.value.name != "") && (y.Some? && y.value.Name? ==> y.value.name != "")
    ensures ThreadText(x) == ThreadText(y) <==> SameThread(x, y)
  {
    hide Decimal;
    if x.Some? && x.value.Number? { DecimalMeaning(x.value.number); }
    if y.Some? && y.value.Number? { DecimalMeaning(y.value.number); }
    if x.Some? && y.Some? && x.value.Number? && y.value.Number? { DecimalIsUnique(x.value.number, y.value.number); }
  }

  /** Two targets, one of them without bars, share a key exactly when they are the same chat and account, and one
      thread, or the name and the number of one. */
  lemma SharedKeyExactly(t: Target, u: Target)
    requires CanonicalTarget(t) && CanonicalTarget(u) && NoBars(t)
    ensures Key(t) == Key(u) <==> t.to == u.to && t.accountId == u.accountId && SameThread(t.threadId, u.threadId)
  {
    hide Key, NoBars, Trim, Decimal, ThreadText, SameThread;
    KeyFixesPartsExactly(t);
    SameThreadTextExactly(t.threadId, u.threadId);
    if SameParts(u, t) {
      KeyIsJoined(t);
      KeyIsJoined(u);
    }
  }

  // ---------------------------------------------------------------------------
  // One chat turns off another
  // ---------------------------------------------------------------------------

  /** When two chats share a key, `off` in one ends the subscription of the other. */
  lemma OffEndsTheOther(first: Context, second: Context, now: int, later: int)
    requires IsRegular(Enable(first, now)) && IsRegular(Disable(second, later))
    requires CommandTarget(first).Some? && CommandTarget(second).Some?
    ensures var t, u := CommandTarget(first).value, CommandTarget(second).value;
      Memory([Enable(first, now), Disable(second, later)]).subscribers
        == if Key(t) == Key(u) then [] else [Subscriber(t, Persistent, now)]
  {
    hide Key, CommandTarget;
    var events := [Enable(first, now), Disable(second, later)];
    var s := Subscriber(CommandTarget(first).value, Persistent, now);
    assert events[..1] == [events[0]] && [events[0]][..0] == [];
    assert [] + [s] == [s];
    assert Memory([events[0]]) == State([s], []);
    assert [s][..0] + [s][1..] == [];
  }

  /** The chat `u|x` with account `y`, and the chat `u` with account `x|y`. */
  lemma BarsCollide()
    ensures Key(Target("u|x", Some("y"), None)) == Key(Target("u", Some("x|y"), None))
  {
    KeyIsJoined(Target("u|x", Some("y"), None));
    KeyIsJoined(Target("u", Some("x|y"), None));
    assert "u|x" + "|" + "y" == "u" + "|" + "x|y";
  }

  /** A thread named `5`, and thread number 5. */
  lemma NumberAndNameCollide(to: string, account: Option<string>)
    ensures Key(Target(to, account, Some(Name("5")))) == Key(Target(to, account, Some(Number(5))))
  {
    assert Digits(5) == "" + ["0123456789"[5]];
    assert Decimal(5) == "5";
  }
}
