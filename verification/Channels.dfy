/**
  Channel memberships (models/channels.py) and the direct-message lookup, which finds a channel by
  two row counts.
 */
module Channels {
  import opened Prelude

  type Id = string

  /** A membership row; nothing in the schema keeps a (channel, user) pair from appearing twice. */
  datatype Member = Member(channel: Id, user: Id)

  // ---------- The two counting conditions ----------

  /** COUNT over the rows of a channel whose user is in `among`. */
  function Count(rows: seq<Member>, channel: Id, among: set<Id>): nat {
    if rows == [] then 0
    else (if rows[0].channel == channel && rows[0].user in among then 1 else 0) + Count(rows[1..], channel, among)
  }

  /** HAVING count(users that exist) = n AND sum(those requested) = n; an empty group is no row at all. */
  predicate Selected(rows: seq<Member>, users: set<Id>, channel: Id, requested: set<Id>) {
    Count(rows, channel, users) > 0 &&
    Count(rows, channel, users) == |requested| && Count(rows, channel, users * requested) == |requested|
  }

  /** The members of a channel whose accounts still exist. */
  function Surviving(rows: seq<Member>, users: set<Id>, channel: Id): set<Id> {
    set m | m in rows && m.channel == channel && m.user in users :: m.user
  }

  /** No surviving member of the channel has two rows in it. */
  ghost predicate OneRowEach(rows: seq<Member>, users: set<Id>, channel: Id) {
    forall i, j :: 0 <= i < j < |rows| && rows[i].channel == channel && rows[i].user in users ==> rows[i] != rows[j]
  }

  lemma {:induction false} CountIsSize(rows: seq<Member>, channel: Id, among: set<Id>)
    requires OneRowEach(rows, among, channel)
    ensures Count(rows, channel, among) == |Surviving(rows, among, channel)|
  {
    if rows != [] {
      CountIsSize(rows[1..], channel, among);
      SurvivingStep(rows, among, channel);
    }
  }

  /** A second row of somebody makes the count larger than the number of people. */
  lemma {:induction false} CountExceedsSize(rows: seq<Member>, channel: Id, among: set<Id>)
    ensures Count(rows, channel, among) >= |Surviving(rows, among, channel)|
    ensures !OneRowEach(rows, among, channel) ==> Count(rows, channel, among) > |Surviving(rows, among, channel)|
  {
    if rows != [] {
      var m, rest := rows[0], rows[1..];
      CountExceedsSize(rest, channel, among);
      SurvivingStep(rows, among, channel);
      if OneRowEach(rest, among, channel) && !OneRowEach(rows, among, channel) {
        var i, j :| 0 <= i < j < |rows| && rows[i].channel == channel && rows[i].user in among && rows[i] == rows[j];
        assert rest[j - 1] == rows[j] && (i > 0 ==> rest[i - 1] == rows[i]);
      }
    }
  }

  lemma SurvivingStep(rows: seq<Member>, among: set<Id>, channel: Id)
    requires rows != []
    ensures var m, before := rows[0], Surviving(rows[1..], among, channel);
            Surviving(rows, among, channel) ==
            if m.channel == channel && m.user in among then before + {m.user} else before
    ensures rows[0] !in rows[1..] && rows[0].channel == channel ==> rows[0].user !in Surviving(rows[1..], among, channel)
  {
    assert rows == [rows[0]] + rows[1..];
  }

  /** With one row for each survivor the counts select exactly the channels of the requested people. */
  lemma SelectedExactly(rows: seq<Member>, users: set<Id>, channel: Id, requested: set<Id>)
    requires OneRowEach(rows, users, channel)
    ensures Selected(rows, users, channel, requested) <==> Wanted(rows, users, channel, requested)
  {
    var present := Surviving(rows, users, channel);
    CountIsSize(rows, channel, users);
    CountIsSize(rows, channel, users * requested);
    assert Surviving(rows, users * requested, channel) == present * requested;
    if |present| == |requested| == |present * requested| {
      SameSize(present * requested, present);
      SameSize(present * requested, requested);
    }
    if present == requested {
      assert present * requested == requested;
    }
  }

  /** What the lookup is for. */
  predicate Wanted(rows: seq<Member>, users: set<Id>, channel: Id, requested: set<Id>) {
    requested != {} && Surviving(rows, users, channel) == requested
  }

  lemma SameSize(a: set<Id>, b: set<Id>)
    requires a <= b && |a| == |b|
    ensures a == b
  {
    assert b == a + (b - a);
    assert |b| == |a| + |b - a|;
  }

  lemma {:induction false} CountSame(rows: seq<Member>, channel: Id, a: set<Id>, b: set<Id>)
    requires forall m :: m in rows && m.channel == channel ==> (m.user in a <==> m.user in b)
    ensures Count(rows, channel, a) == Count(rows, channel, b)
  {
    if rows != [] {
      CountSame(rows[1..], channel, a, b);
    }
  }

  function Longest(rows: seq<Member>): (n: nat)
    ensures forall m :: m in rows ==> |m.user| <= n
  {
    if rows == [] then 0
    else
      var n := Longest(rows[1..]);
      if |rows[0].user| > n then |rows[0].user| else n
  }

  /** Any number of names that no row has. */
  lemma {:induction false} FreshNames(rows: seq<Member>, n: nat) returns (names: set<Id>)
    ensures |names| == n && forall name :: name in names ==> Longest(rows) < |name| <= Longest(rows) + n
  {
    names := {};
    if n > 0 {
      names := FreshNames(rows, n - 1);
      var name := seq(Longest(rows) + n, k => 'x');
      assert name !in names;
      names := names + {name};
    }
  }

  /** With two rows for a survivor some request, of existing accounts too, finds a channel it should not. */
  lemma DuplicateRowsMislead(rows: seq<Member>, users: set<Id>, channel: Id) returns (requested: set<Id>)
    requires !OneRowEach(rows, users, channel)
    ensures Selected(rows, users, channel, requested) && !Wanted(rows, users, channel, requested)
    ensures Selected(rows, users + requested, channel, requested) && !Wanted(rows, users + requested, channel, requested)
  {
    var present := Surviving(rows, users, channel);
    var n := Count(rows, channel, users);
    CountExceedsSize(rows, channel, users);
    var strangers := FreshNames(rows, n - |present|);
    assert forall m :: m in rows ==> m.user !in strangers;
    requested := present + strangers;
    assert |requested| == n;
    MisledBy(rows, users, channel, requested, strangers);
    assert Surviving(rows, users + requested, channel) == present;
    assert present * strangers == {};
    assert requested != present;
    MisledBy(rows, users + requested, channel, requested, strangers);
    CountSame(rows, channel, users + requested, users);
  }

  lemma MisledBy(rows: seq<Member>, users: set<Id>, channel: Id, requested: set<Id>, strangers: set<Id>)
    requires requested == Surviving(rows, users, channel) + strangers && forall m :: m in rows ==> m.user !in strangers
    ensures Count(rows, channel, users * requested) == Count(rows, channel, users)
  {
    forall m | m in rows && m.channel == channel
      ensures m.user in users * requested <==> m.user in users
    {
    }
    CountSame(rows, channel, users * requested, users);
  }

  /** The lookup is right for every request exactly when each survivor has one row. */
  lemma LookupExactly(rows: seq<Member>, users: set<Id>, channel: Id)
    ensures OneRowEach(rows, users, channel) <==>
            forall requested :: Selected(rows, users, channel, requested) <==> Wanted(rows, users, channel, requested)
  {
    if OneRowEach(rows, users, channel) {
      forall requested
        ensures Selected(rows, users, channel, requested) <==> Wanted(rows, users, channel, requested)
      {
        SelectedExactly(rows, users, channel, requested);
      }
    } else {
      var requested := DuplicateRowsMislead(rows, users, channel);
    }
  }

  // ---------- The tables ----------

  datatype Kind = Group | Dm | Standard

  class Tables {
    var rows: seq<Member>
    var channels: map<Id, Kind>
    var users: set<Id>                       // accounts that exist; rows outlive them

    ghost predicate Valid()
      reads this
    {
      Distinct(rows)
    }

    constructor ()
      ensures Valid() && rows == [] && channels == map[] && users == {}
    {
      rows, channels, users := [], map[], {};
    }

    /** Rows for people who have none yet, in some order. */
    method Append(channel: Id, people: set<Id>)
      requires Valid() && forall u :: u in people ==> Member(channel, u) !in rows
      modifies this`rows
      ensures Valid() && old(rows) <= rows
      ensures forall m :: m in rows <==> m in old(rows) || (m.channel == channel && m.user in people)
    {
      var rest := people;
      while rest != {}
        invariant Valid() && rest <= people && old(rows) <= rows
        invariant forall m :: m in rows <==> m in old(rows) || (m.channel == channel && m.user in people - rest)
        decreases rest
      {
        var u :| u in rest;
        rows, rest := rows + [Member(channel, u)], rest - {u};
      }
    }

    /** A new group or direct-message channel starts with its creator and the people named, once each. */
    method InsertNewChannel(channel: Id, kind: Kind, creator: Id, people: seq<Id>)
      requires Valid() && channel !in channels && forall m :: m in rows ==> m.channel != channel
      modifies this
      ensures Valid() && channels == old(channels)[channel := kind] && users == old(users)
      ensures forall m :: m in rows <==>
                m in old(rows) || (kind != Standard && m.channel == channel && (m.user in people || m.user == creator))
    {
      if kind != Standard {
        Append(channel, (set u | u in people) + {creator});
      }
      channels := channels[channel := kind];
    }

    method AddMembers(channel: Id, invitedBy: Id, people: seq<Id>)
      requires Valid()
      modifies this`rows
      ensures Valid()
      ensures forall m :: m in rows <==>
                m in old(rows) || (m.channel == channel && (m.user in people || m.user == invitedBy))
    {
      var existing := set m | m in rows && m.channel == channel :: m.user;
      var requested := (set u | u in people) + {invitedBy};
      assert forall u :: Member(channel, u) in rows ==> Member(channel, u).user in existing;
      Append(channel, requested - existing);
    }

    /** Joining, and muting a channel without a membership, add a row unless there is one. */
    method JoinOrMute(channel: Id, user: Id)
      requires Valid()
      modifies this`rows
      ensures Valid() && forall m :: m in rows <==> m in old(rows) || m == Member(channel, user)
    {
      if Member(channel, user) !in rows {
        rows := rows + [Member(channel, user)];
      }
    }

    method RemoveMembers(channel: Id, people: seq<Id>)
      requires Valid()
      modifies this`rows
      ensures Valid()
      ensures forall m :: m in rows <==> m in old(rows) && !(m.channel == channel && m.user in people)
    {
      var kept: seq<Member> := [];
      for k := 0 to |rows|
        invariant rows == old(rows) && Distinct(kept)
        invariant forall m :: m in kept <==> m in rows[..k] && !(m.channel == channel && m.user in people)
      {
        assert rows[..k + 1] == rows[..k] + [rows[k]];
        if !(rows[k].channel == channel && rows[k].user in people) {
          assert rows[k] !in rows[..k];
          kept := kept + [rows[k]];
        }
      }
      assert rows[..|rows|] == rows;
      rows := kept;
    }

    method SetUsers(users: set<Id>)
      modifies this`users
      ensures this.users == users
    {
      this.users := users;
    }

    /** `get_dm_channel_by_user_ids`: duplicates in the request make no difference. */
    method DmChannel(userIds: seq<Id>) returns (r: Option<Id>)
      requires Valid()
      ensures r.Some? ==>
                r.value in channels && channels[r.value] == Dm &&
                Surviving(rows, users, r.value) == set u | u in userIds
      ensures userIds == [] ==> r.None?
      ensures r.None? && userIds != [] ==>
                forall c :: c in channels && channels[c] == Dm ==> Surviving(rows, users, c) != set u | u in userIds
    {
      var requested := set u | u in userIds;
      assert userIds != [] ==> userIds[0] in requested;
      var rest := channels.Keys;
      while rest != {}
        invariant rest <= channels.Keys
        invariant userIds != [] ==>
          forall c :: c in channels && c !in rest && channels[c] == Dm ==> Surviving(rows, users, c) != requested
        decreases rest
      {
        var c :| c in rest;
        SelectedExactly(rows, users, c, requested);
        if channels[c] == Dm && Selected(rows, users, c, requested) {
          return Some(c);
        }
        rest := rest - {c};
      }
      r := None;
    }
  }
}
