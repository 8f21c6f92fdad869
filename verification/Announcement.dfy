/** The email fan-out of an announcement: one mail and one commit per recipient,
    retried as a whole, resuming from what earlier attempts committed. */
module Announcement {
  import opened Common

  /** What happens when the loop comes to one member: the mail goes out and its
      outcome is committed, or the attempt dies before sending, or between the
      transport's answer and the commit. */
  datatype Fate = Completes | DiesBeforeSend | DiesBeforeCommit

  /** A member of the audience, whether the transport would accept the mail, and
      how far the attempt gets with it. */
  datatype Visit = Visit(member: int, accepted: bool, fate: Fate)

  /** `announcement_recipients` for one member: the row is missing for whoever
      joined the audience after the send; a NULL outcome is None. */
  datatype Row = NoRow | Row(sent: Option<bool>)

  /** One member's row, and how many mails were handed to the transport, how many
      it accepted, and how many accepted ones died before their commit. */
  datatype Account = Account(row: Row, sends: nat, deliveries: nat, lost: nat)

  type State = map<int, Account>

  function Get(s: State, m: int): Account {
    if m in s then s[m] else Account(NoRow, 0, 0, 0)
  }

  predicate Reached(a: Account) {
    a.row == Row(Some(true))
  }

  /** One turn of the loop that gets as far as sending. The UPDATE touches no row
      when the member has none. */
  function Treated(a: Account, v: Visit): Account {
    var accepted := if v.accepted then 1 else 0;
    var died := v.fate == DiesBeforeCommit;
    Account(if died || a.row.NoRow? then a.row else Row(Some(v.accepted)),
            a.sends + 1, a.deliveries + accepted, a.lost + if died then accepted else 0)
  }

  /** The rest of an attempt: the state it ends in and, unless it dies, how many
      more mails it counts as sent. */
  function Rest(s: State, already: set<int>, visits: seq<Visit>): (State, Option<nat>)
    decreases |visits|
  {
    if visits == [] then (s, Some(0))
    else
      var v := visits[0];
      var skip := v.member in already;
      var s' := if skip || v.fate == DiesBeforeSend then s else s[v.member := Treated(Get(s, v.member), v)];
      if v.fate != Completes then (s', None)
      else
        var (t, count) := Rest(s', already, visits[1..]);
        (t, if count.Some? && !skip && v.accepted then Some(count.value + 1) else count)
  }

  function AlreadySent(s: State): set<int> {
    set m | m in s && Reached(s[m])
  }

  predicate Distinct(visits: seq<Visit>) {
    forall i, j :: 0 <= i < j < |visits| ==> visits[i].member != visits[j].member
  }

  predicate InAudience(visits: seq<Visit>, m: int) {
    exists i :: 0 <= i < |visits| && visits[i].member == m
  }

  /** `b` is what some visit to `m` makes of `a`. */
  predicate ByVisit(visits: seq<Visit>, m: int, a: Account, b: Account) {
    exists i :: 0 <= i < |visits| && visits[i].member == m && visits[i].fate != DiesBeforeSend && b == Treated(a, visits[i])
  }

  lemma InTail(visits: seq<Visit>, m: int)
    requires visits != []
    ensures InAudience(visits, m) <==> visits[0].member == m || InAudience(visits[1..], m)
    ensures Distinct(visits) ==> Distinct(visits[1..]) && !InAudience(visits[1..], visits[0].member)
    ensures forall a, b :: ByVisit(visits[1..], m, a, b) ==> ByVisit(visits, m, a, b)
  {
    if InAudience(visits[1..], m) {
      var i :| 0 <= i < |visits[1..]| && visits[1..][i].member == m;
      assert visits[i + 1].member == m;
    }
    forall a, b | ByVisit(visits[1..], m, a, b) ensures ByVisit(visits, m, a, b) {
      var i :| 0 <= i < |visits[1..]| && visits[1..][i].member == m
        && visits[1..][i].fate != DiesBeforeSend && b == Treated(a, visits[1..][i]);
      assert visits[i + 1] == visits[1..][i];
    }
  }

  // ---- What one attempt does ----

  /** Members outside the audience, and those already reached, are left alone. */
  lemma {:induction false} RestLeavesAlone(s: State, already: set<int>, visits: seq<Visit>, m: int)
    requires !InAudience(visits, m) || m in already
    ensures Get(Rest(s, already, visits).0, m) == Get(s, m)
    decreases |visits|
  {
    if visits != [] {
      var v := visits[0];
      InTail(visits, m);
      if v.fate == Completes {
        RestLeavesAlone(if v.member in already then s else s[v.member := Treated(Get(s, v.member), v)],
                        already, visits[1..], m);
      }
    }
  }

  /** Everyone else is mailed at most once, and exactly once, with the outcome
      committed, by an attempt that runs to its end. */
  lemma {:induction false} RestMailsOnce(s: State, already: set<int>, visits: seq<Visit>, m: int)
    requires Distinct(visits) && InAudience(visits, m) && m !in already
    ensures var (t, count) := Rest(s, already, visits);
      && (Get(t, m) == Get(s, m) || ByVisit(visits, m, Get(s, m), Get(t, m)))
      && (count.Some? ==> Get(t, m).sends == Get(s, m).sends + 1 && Get(t, m).lost == Get(s, m).lost
                          && Get(t, m).row != Row(None))
    decreases |visits|
  {
    var v := visits[0];
    InTail(visits, m);
    if v.fate == Completes {
      var s' := if v.member in already then s else s[v.member := Treated(Get(s, v.member), v)];
      if v.member == m {
        RestLeavesAlone(s', already, visits[1..], m);
        assert ByVisit(visits, m, Get(s, m), Get(s', m));
      } else {
        RestMailsOnce(s', already, visits[1..], m);
      }
    } else if v.member == m && v.fate == DiesBeforeCommit {
      assert ByVisit(visits, m, Get(s, m), Treated(Get(s, m), v));
    }
  }

  predicate GetsTo(visits: seq<Visit>, i: nat)
    requires i < |visits|
  {
    forall j :: 0 <= j < i ==> visits[j].fate == Completes
  }

  /** What an attempt leaves of the member it visits at `i`: nothing changes if an
      earlier visit or this one dies before sending; a mail whose attempt dies before
      the commit went out, but the row does not know; a completed visit writes the
      transport's answer to the row, if there is one. */
  lemma {:induction false} VisitLeaves(s: State, already: set<int>, visits: seq<Visit>, i: nat)
    requires Distinct(visits) && i < |visits| && visits[i].member !in already
    ensures var v := visits[i]; var a, b := Get(s, v.member), Get(Rest(s, already, visits).0, v.member);
      var accepted := if v.accepted then 1 else 0;
      if !GetsTo(visits, i) || v.fate == DiesBeforeSend then b == a
      else
        && b.sends == a.sends + 1 && b.deliveries == a.deliveries + accepted
        && b.lost == a.lost + (if v.fate == DiesBeforeCommit then accepted else 0)
        && b.row == if v.fate == DiesBeforeCommit || a.row == NoRow then a.row else Row(Some(v.accepted))
    decreases |visits|
  {
    var first, rest := visits[0], visits[1..];
    InTail(visits, first.member);
    if first.fate == Completes {
      var s' := if first.member in already then s else s[first.member := Treated(Get(s, first.member), first)];
      if i == 0 {
        RestLeavesAlone(s', already, rest, first.member);
      } else {
        VisitLeaves(s', already, rest, i - 1);
        assert GetsTo(visits, i) <==> GetsTo(rest, i - 1) by {
          assert forall j :: 1 <= j < i ==> visits[j] == rest[j - 1];
          assert forall j :: 0 <= j < i - 1 ==> rest[j] == visits[j + 1];
        }
      }
    }
  }

  /** Only an attempt that dies loses a mail, and it loses one member's only. */
  lemma {:induction false} RestLosesAtMostOne(s: State, already: set<int>, visits: seq<Visit>, m: int, n: int)
    ensures var (t, count) := Rest(s, already, visits);
      && (count.Some? ==> Get(t, m).lost == Get(s, m).lost)
      && Get(s, m).lost <= Get(t, m).lost <= Get(s, m).lost + 1
      && (Get(t, m).lost > Get(s, m).lost && Get(t, n).lost > Get(s, n).lost ==> m == n)
    decreases |visits|
  {
    if visits != [] && visits[0].fate == Completes {
      var v := visits[0];
      RestLosesAtMostOne(if v.member in already then s else s[v.member := Treated(Get(s, v.member), v)],
                         already, visits[1..], m, n);
    }
  }

  /** Whom an attempt newly reached. */
  function Newly(s: State, t: State): set<int> {
    set m | m in t && Reached(t[m]) && !Reached(Get(s, m))
  }

  /** The number a completed attempt returns is the number of members it reached,
      when everyone it mails has a row. */
  lemma {:induction false} RestCounts(s: State, already: set<int>, visits: seq<Visit>)
    requires Distinct(visits) && Rest(s, already, visits).1.Some?
    requires forall i :: 0 <= i < |visits| && visits[i].member !in already ==> Fresh(s, visits[i].member)
    ensures Rest(s, already, visits).1.value == |Newly(s, Rest(s, already, visits).0)|
    decreases |visits|
  {
    if visits == [] {
      assert Newly(s, s) == {};
    } else {
      var v, rest := visits[0], visits[1..];
      InTail(visits, v.member);
      var s' := if v.member in already then s else s[v.member := Treated(Get(s, v.member), v)];
      var t := Rest(s', already, rest).0;
      forall i | 0 <= i < |rest| && rest[i].member !in already ensures Fresh(s', rest[i].member) {
        assert rest[i] == visits[i + 1] && Fresh(s, visits[i + 1].member);
        assert InAudience(rest, rest[i].member);
      }
      RestCounts(s', already, rest);
      RestLeavesAlone(s', already, rest, v.member);
      if v.member !in already && v.accepted {
        assert Fresh(s, visits[0].member);
        assert Newly(s, t) == Newly(s', t) + {v.member};
      } else {
        assert v.member !in already ==> Fresh(s, visits[0].member);
        assert Newly(s, t) == Newly(s', t);
      }
    }
  }

  function Accepting(already: set<int>, visits: seq<Visit>): seq<Visit> {
    if visits == [] then []
    else (if visits[0].member !in already && visits[0].accepted then [visits[0]] else []) + Accepting(already, visits[1..])
  }

  /** With or without rows, the number returned is that of mails accepted; and only
      an attempt whose every visit is completed returns one. */
  lemma {:induction false} RestReturns(s: State, already: set<int>, visits: seq<Visit>)
    ensures Rest(s, already, visits).1.Some? <==> forall i :: 0 <= i < |visits| ==> visits[i].fate == Completes
    ensures Rest(s, already, visits).1.Some? ==> Rest(s, already, visits).1.value == |Accepting(already, visits)|
    decreases |visits|
  {
    if visits != [] {
      var v := visits[0];
      var s' := if v.member in already || v.fate == DiesBeforeSend then s else s[v.member := Treated(Get(s, v.member), v)];
      RestReturns(s', already, visits[1..]);
      assert forall i :: 1 <= i < |visits| ==> visits[i] == visits[1..][i - 1];
      assert forall i :: 0 <= i < |visits| - 1 ==> visits[1..][i] == visits[i + 1];
    }
  }

  predicate Fresh(s: State, m: int) {
    Get(s, m).row.Row? && !Reached(Get(s, m))
  }

  // ---- What every run of attempts keeps ----

  /** Every accepted mail to a member with a row is on record, except those lost
      with their attempt: a committed `true` stands for a real delivery, and there
      is no second delivery without a lost one. */
  predicate Accounted(a: Account) {
    a.row.Row? ==> a.deliveries == a.lost + if Reached(a) then 1 else 0
  }

  lemma AttemptAccounts(s: State, visits: seq<Visit>, m: int)
    requires Distinct(visits) && Accounted(Get(s, m))
    ensures var (t, count) := Rest(s, AlreadySent(s), visits); var a, b := Get(s, m), Get(t, m);
      && Accounted(b) && (a.row.NoRow? <==> b.row.NoRow?) && a.sends <= b.sends <= a.sends + 1
      && (Reached(a) || !InAudience(visits, m) ==> b == a)
      && (count.Some? && InAudience(visits, m) && !Reached(a) ==> b.sends == a.sends + 1)
      && (count.Some? && InAudience(visits, m) ==> b.row != Row(None))
  {
    if InAudience(visits, m) && !Reached(Get(s, m)) {
      RestMailsOnce(s, AlreadySent(s), visits, m);
    } else {
      RestLeavesAlone(s, AlreadySent(s), visits, m);
    }
  }

  // ---- The fan-out ----

  class Campaign {
    var state: State

    /** `send_announcement` has just written the rows, with no outcome of true. */
    constructor (rows: map<int, Option<bool>>)
      requires forall m :: m in rows ==> rows[m] != Some(true)
      ensures Valid() && state == map m | m in rows :: Account(Row(rows[m]), 0, 0, 0)
    {
      state := map m | m in rows :: Account(Row(rows[m]), 0, 0, 0);
    }

    ghost predicate Valid()
      reads this
    {
      forall m :: Accounted(Get(state, m))
    }

    /** One run of the fan-out; None when it died and asks to be retried. */
    method Attempt(found: bool, enabled: bool, visits: seq<Visit>) returns (sent: Option<nat>)
      requires Valid() && Distinct(visits)
      modifies this
      ensures Valid()
      ensures !found || !enabled ==> sent == Some(0) && state == old(state)
      ensures found && enabled ==> (state, sent) == Rest(old(state), AlreadySent(old(state)), visits)
      ensures found && enabled && sent.Some? && (forall i :: 0 <= i < |visits| ==> Get(old(state), visits[i].member).row.Row?)
        ==> sent.value == |Newly(old(state), state)|
    {
      ghost var start := state;
      if !found || !enabled { return Some(0); }
      forall m ensures Accounted(Get(Rest(start, AlreadySent(start), visits).0, m)) {
        AttemptAccounts(start, visits, m);
      }
      if (forall i :: 0 <= i < |visits| ==> Get(start, visits[i].member).row.Row?)
         && Rest(start, AlreadySent(start), visits).1.Some? {
        RestCounts(start, AlreadySent(start), visits);
      }
      var already := AlreadySent(state);
      var count := 0;
      var i := 0;
      while i < |visits|
        invariant 0 <= i <= |visits|
        invariant Rest(start, already, visits).0 == Rest(state, already, visits[i..]).0
        invariant var more := Rest(state, already, visits[i..]).1;
          Rest(start, already, visits).1 == if more.None? then None else Some(count + more.value)
      {
        var v := visits[i];
        if v.fate == DiesBeforeSend { return None; }
        if v.member !in already {
          state := state[v.member := Treated(Get(state, v.member), v)];
          if v.fate == Completes && v.accepted { count := count + 1; }
        }
        if v.fate == DiesBeforeCommit { return None; }
        i := i + 1;
      }
      return Some(count);
    }

    /** Any number of attempts, each cut off anywhere, over audiences that may
        change in between. */
    method Retry(attempts: seq<seq<Visit>>)
      requires Valid()
      requires forall k :: 0 <= k < |attempts| ==> Distinct(attempts[k])
      modifies this
      ensures Valid()
      ensures forall m :: Reached(Get(old(state), m)) ==> Get(state, m) == Get(old(state), m)
      ensures forall m :: Get(state, m).row.NoRow? <==> Get(old(state), m).row.NoRow?
      ensures forall m :: Get(state, m).lost <= Get(old(state), m).lost + |attempts|
      ensures forall m {:trigger Get(state, m)} :: Reached(Get(state, m)) ==> Get(state, m).deliveries >= 1
      ensures forall m :: Get(state, m).row.Row? ==> Get(state, m).deliveries <= 1 + Get(state, m).lost
    {
      var k := 0;
      while k < |attempts|
        invariant 0 <= k <= |attempts| && Valid()
        invariant forall m :: Reached(Get(old(state), m)) ==> Get(state, m) == Get(old(state), m)
        invariant forall m :: Get(state, m).row.NoRow? <==> Get(old(state), m).row.NoRow?
        invariant forall m :: Get(state, m).lost <= Get(old(state), m).lost + k
      {
        ghost var before := state;
        var _ := Attempt(true, true, attempts[k]);
        forall m ensures (Reached(Get(before, m)) ==> Get(state, m) == Get(before, m))
                   && (Get(state, m).row.NoRow? <==> Get(before, m).row.NoRow?)
                   && Get(state, m).lost <= Get(before, m).lost + 1
        {
          AttemptAccounts(before, attempts[k], m);
          RestLosesAtMostOne(before, AlreadySent(before), attempts[k], m, m);
        }
        k := k + 1;
      }
      forall m ensures Get(state, m).row.Row? ==> Get(state, m).deliveries <= 1 + Get(state, m).lost
                                                  && (Reached(Get(state, m)) ==> Get(state, m).deliveries >= 1)
      {
        assert Accounted(Get(state, m));
      }
    }
  }

  /** A member who joined the audience after the send has no row to resume from:
      every attempt that runs to its end mails them again. */
  lemma {:induction false} LatecomersAreMailedEveryTime(s: State, attempts: seq<seq<Visit>>, m: int)
    requires Get(s, m).row.NoRow?
    requires forall k :: 0 <= k < |attempts| ==> Distinct(attempts[k]) && InAudience(attempts[k], m)
    requires forall k :: 0 <= k < |attempts| ==> forall i :: 0 <= i < |attempts[k]| ==> attempts[k][i].fate == Completes
    ensures Get(After(s, attempts), m).sends == Get(s, m).sends + |attempts|
    decreases |attempts|
  {
    if attempts != [] {
      AttemptAccounts(s, attempts[0], m);
      RestReturns(s, AlreadySent(s), attempts[0]);
      LatecomersAreMailedEveryTime(Rest(s, AlreadySent(s), attempts[0]).0, attempts[1..], m);
    }
  }

  function After(s: State, attempts: seq<seq<Visit>>): State
    decreases |attempts|
  {
    if attempts == [] then s else After(Rest(s, AlreadySent(s), attempts[0]).0, attempts[1..])
  }
}
