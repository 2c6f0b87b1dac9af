/**
 * The command handlers of the bot: the `restricted` access gate, `/start`,
 * `/addmember` and `/gettoken`, over the two tables held as in-memory state.
 * Each handler's reply is returned instead of being sent.
 */
module Bot {
  import opened Wrappers
  import opened Text
  import opened Members
  import opened Pool

  /** One case per reply the handlers send. */
  datatype Reply =
    | Welcome
    | NeedUsername
    | NotAuthorized
    | AddMemberUsage
    | AlreadyMember(name: string)
    | Added(name: string)
    | GetTokenUsage
    | Url(url: string)
    | NoneAvailable

  /** The text sent for each reply. */
  function Message(r: Reply): string
  {
    match r
    case Welcome => "Welcome! You are authorized to use this bot. Use /gettoken to receive your RPC URL. Use /addmember to add a =nil; TG user to members."
    case NeedUsername => "You need to set a Telegram username to use this bot."
    case NotAuthorized => "You are not authorized to use this bot."
    case AddMemberUsage => "Usage: /addmember <nil_team_member_tg_handle>"
    case AlreadyMember(name) => name + " is already a member."
    case Added(name) => name + " added to members."
    case GetTokenUsage => "Usage: /gettoken <developer_email_or_tg_handle>"
    case Url(url) => url
    case NoneAvailable => "No RPC URLs available at the moment. Please try again later."
  }

  /** A handler's reply together with the table it leaves behind. */
  datatype Outcome<S> = Outcome(reply: Reply, state: S)

  /** Telegram command arguments are non-empty tokens. */
  predicate Tokens(args: seq<string>) {
    forall k :: 0 <= k < |args| ==> args[k] != ""
  }

  /**
   * The decision of `restricted`: a caller without a (non-empty) username, or
   * whose username is not a member, is refused with a fixed reply; `None`
   * lets the wrapped handler run.
   */
  function Gate(username: Option<string>, members: seq<string>): (refusal: Option<Reply>)
    ensures refusal == Some(NeedUsername) <==> username.None? || username.value == ""
    ensures refusal == Some(NotAuthorized) <==> username.Some? && username.value != "" && !IsMember(members, username.value)
    ensures refusal.None? <==> username.Some? && username.value != "" && IsMember(members, username.value)
  {
    if username.None? || username.value == "" then Some(NeedUsername)
    else if !IsMember(members, username.value) then Some(NotAuthorized)
    else None
  }

  /**
   * A handler wrapped by `restricted`: on a refusal the table is left as it
   * was `before`; otherwise the outcome is the handler's own.
   */
  function Restricted<S>(username: Option<string>, members: seq<string>, before: S, handled: Outcome<S>): (r: Outcome<S>)
    ensures (username.None? || username.value == "") ==> r == Outcome(NeedUsername, before)
    ensures username.Some? && username.value != "" && !IsMember(members, username.value) ==> r == Outcome(NotAuthorized, before)
    ensures username.Some? && username.value != "" && IsMember(members, username.value) ==> r == handled
  {
    match Gate(username, members)
    case Some(refusal) => Outcome(refusal, before)
    case None => handled
  }

  /** Once the tables are seeded, the bootstrap member passes the gate whatever the case of its username. */
  lemma {:induction false} BootstrapAdmitted(members: seq<string>, username: string)
    requires Lower(username) == Bootstrap
    ensures Gate(Some(username), Seed(members)).None?
  {
    LowerIdempotent(username);
    IsMemberIgnoresCase(Seed(members), Bootstrap, username);
  }

  /** `/addmember <handle>` on the `members` table. */
  function AddMemberResult(members: seq<string>, args: seq<string>): (r: Outcome<seq<string>>)
    ensures r.reply.Added? ==> r.state == members + [r.reply.name] && !IsMember(members, r.reply.name)
    ensures !r.reply.Added? ==> r.state == members
  {
    if |args| != 1 then Outcome(AddMemberUsage, members)
    else
      var name := Normalize(args[0]);
      if IsMember(members, name) then Outcome(AlreadyMember(name), members)
      else Outcome(Added(name), members + [name])
  }

  /** A wrong argument count gives the usage reply and leaves `members` alone. */
  lemma AddMemberWrongArity(members: seq<string>, args: seq<string>)
    requires |args| != 1
    ensures AddMemberResult(members, args) == Outcome(AddMemberUsage, members)
  {
  }

  /**
   * With one argument the name is normalised; a name that matches a member
   * up to case is refused and changes nothing; otherwise exactly that name is
   * appended, and from then on every case variant of it is a member and
   * nothing else has become one.
   */
  lemma AddMemberEffect(members: seq<string>, arg: string)
    ensures var r := AddMemberResult(members, [arg]); var name := Normalize(arg);
      && (r.reply == AlreadyMember(name) <==> IsMember(members, name))
      && (r.reply == Added(name) <==> !IsMember(members, name))
      && (r.reply.AlreadyMember? ==> r.state == members)
      && (r.reply.Added? ==> r.state == members + [name])
      && (forall u :: IsMember(r.state, u) <==> IsMember(members, u) || Lower(u) == name)
  {
    var r := AddMemberResult(members, [arg]);
    var name := Normalize(arg);
    forall u ensures IsMember(r.state, u) <==> IsMember(members, u) || Lower(u) == name {
      IsMemberAppend(members, name, u);
      if Lower(u) == name {
        IsMemberIgnoresCase(members, u, name);
      }
    }
  }

  /** `/addmember @Foo` makes `foo` a member. */
  lemma AddAtFooThenFoo(members: seq<string>)
    ensures IsMember(AddMemberResult(members, ["@Foo"]).state, "foo")
  {
    NormalizeAtFoo();
    AddMemberEffect(members, "@Foo");
  }

  /** `/addmember` keeps the UNIQUE constraint, so its INSERT cannot violate it. */
  lemma {:induction false} AddMemberKeepsUnique(members: seq<string>, args: seq<string>)
    requires Unique(members)
    ensures Unique(AddMemberResult(members, args).state)
  {
    if |args| == 1 && !IsMember(members, Normalize(args[0])) {
      AppendKeepsUnique(members, Normalize(args[0]));
    }
  }

  /** `/gettoken <email_or_handle>` on the `urls` table. */
  function GetTokenResult(urls: seq<Row>, args: seq<string>, at: Timestamp): (r: Outcome<seq<Row>>)
    requires Tokens(args)
    ensures |r.state| == |urls|
    ensures !r.reply.Url? ==> r.state == urls
    ensures r.reply.Url? ==> exists i :: 0 <= i < |urls| && Unassigned(urls[i]) && r.reply.url == urls[i].url
  {
    if |args| != 1 then Outcome(GetTokenUsage, urls)
    else
      match FirstUnassigned(urls)
      case None => Outcome(NoneAvailable, urls)
      case Some(i) => Outcome(Url(urls[i].url), Assign(urls, i, Classify(args[0]), at))
  }

  /**
   * The reply is a URL exactly when there is one argument and some row is
   * unassigned; every other reply leaves `urls` as it was.
   */
  lemma {:induction false} GetTokenReplies(urls: seq<Row>, args: seq<string>, at: Timestamp)
    requires Tokens(args)
    ensures var r := GetTokenResult(urls, args, at);
      && (r.reply == GetTokenUsage <==> |args| != 1)
      && (r.reply == NoneAvailable <==> |args| == 1 && CountUnassigned(urls) == 0)
      && (r.reply.Url? <==> |args| == 1 && CountUnassigned(urls) > 0)
      && (!r.reply.Url? ==> r.state == urls)
  {
    ExhaustedIffNoneFree(urls);
  }

  /**
   * A successful `/gettoken` hands out the URL of the unassigned row with the
   * smallest id, records the classified argument and the timestamp in that
   * row only, and uses up exactly one unassigned row.
   */
  lemma {:induction false} GetTokenAllocates(urls: seq<Row>, arg: string, at: Timestamp)
    requires IdsIncreasing(urls)
    requires arg != [] && FirstUnassigned(urls).Some?
    ensures var i := FirstUnassigned(urls).value; var r := GetTokenResult(urls, [arg], at);
      && r.reply == Url(urls[i].url)
      && (forall j :: 0 <= j < |urls| && Unassigned(urls[j]) && j != i ==> urls[i].id < urls[j].id)
      && |r.state| == |urls|
      && r.state[i].id == urls[i].id && r.state[i].url == urls[i].url
      && r.state[i].email == Classify(arg).email && r.state[i].handle == Classify(arg).handle
      && r.state[i].assignedAt == Some(at)
      && (forall j :: 0 <= j < |urls| && j != i ==> r.state[j] == urls[j])
      && (forall j :: 0 <= j < |urls| && !Unassigned(urls[j]) ==> r.state[j] == urls[j])
      && CountUnassigned(r.state) == CountUnassigned(urls) - 1
      && IdsIncreasing(r.state)
  {
    FirstUnassignedHasSmallestId(urls);
    AssignEffect(urls, FirstUnassigned(urls).value, Classify(arg), at);
  }

  /**
   * `/gettoken` does not look up an earlier assignment: asking again with the
   * same argument takes the next free row, one with a larger id, or finds the
   * pool exhausted when the first request took the last free row.
   */
  lemma GetTokenRepeatTakesNewRow(urls: seq<Row>, arg: string, at: Timestamp, at2: Timestamp)
    requires IdsIncreasing(urls)
    requires arg != [] && FirstUnassigned(urls).Some?
    ensures var first := GetTokenResult(urls, [arg], at);
      var second := GetTokenResult(first.state, [arg], at2);
      && (second.reply == NoneAvailable <==> CountUnassigned(urls) == 1)
      && (second.reply.Url? ==>
            && FirstUnassigned(first.state).value > FirstUnassigned(urls).value
            && first.state[FirstUnassigned(first.state).value].id > urls[FirstUnassigned(urls).value].id
            && CountUnassigned(second.state) == CountUnassigned(urls) - 2)
  {
    var i := FirstUnassigned(urls).value;
    var first := GetTokenResult(urls, [arg], at);
    GetTokenAllocates(urls, arg, at);
    GetTokenReplies(first.state, [arg], at2);
    var f := FirstUnassigned(first.state);
    if f.Some? {
      var j := f.value;
      assert j != i;
      assert first.state[j] == urls[j];
      GetTokenAllocates(first.state, arg, at2);
    }
  }

  /** The database connection: the `members` and `urls` tables. */
  class Database {
    var members: seq<string>
    var urls: seq<Row>

    ghost predicate Valid()
      reads this
    {
      Unique(members) && IdsIncreasing(urls)
    }

    /** Opens a database whose tables already hold these rows. */
    constructor (members0: seq<string>, urls0: seq<Row>)
      requires Unique(members0) && IdsIncreasing(urls0)
      ensures Valid()
      ensures members == members0 && urls == urls0
    {
      members := members0;
      urls := urls0;
    }

    /** `init_db`: seeds the bootstrap member; `urls` is left alone. */
    method InitDb()
      requires Valid()
      modifies this
      ensures Valid()
      ensures members == Seed(old(members)) && urls == old(urls)
    {
      SeedKeepsUnique(members);
      if !IsMember(members, Bootstrap) {
        members := members + [Bootstrap];
      }
    }

    /** Scans `urls` in id order for the first row whose `assigned_at` is NULL. */
    method FindUnassigned() returns (k: Option<nat>)
      ensures k == FirstUnassigned(urls)
    {
      var i := 0;
      while i < |urls| && !Unassigned(urls[i])
        invariant 0 <= i <= |urls|
        invariant forall j :: 0 <= j < i ==> !Unassigned(urls[j])
      {
        i := i + 1;
      }
      k := if i < |urls| then Some(i) else None;
    }

    /** `/start`, behind the gate. */
    method Start(username: Option<string>) returns (reply: Reply)
      ensures reply == Restricted(username, members, (), Outcome(Welcome, ())).reply
    {
      var refusal := Gate(username, members);
      reply := if refusal.Some? then refusal.value else Welcome;
    }

    /** The body of `/addmember`. */
    method HandleAddMember(args: seq<string>) returns (reply: Reply)
      requires Valid()
      modifies this
      ensures Valid()
      ensures Outcome(reply, members) == AddMemberResult(old(members), args)
      ensures urls == old(urls)
    {
      AddMemberKeepsUnique(members, args);
      if |args| != 1 {
        return AddMemberUsage;
      }
      var name := Normalize(args[0]);
      if IsMember(members, name) {
        return AlreadyMember(name);
      }
      members := members + [name];
      reply := Added(name);
    }

    /** `/addmember`, behind the gate. */
    method AddMember(username: Option<string>, args: seq<string>) returns (reply: Reply)
      requires Valid()
      modifies this
      ensures Valid()
      ensures Outcome(reply, members) == Restricted(username, old(members), old(members), AddMemberResult(old(members), args))
      ensures urls == old(urls)
    {
      var refusal := Gate(username, members);
      if refusal.Some? {
        reply := refusal.value;
      } else {
        reply := HandleAddMember(args);
      }
    }

    /** The body of `/gettoken`; `at` is the current timestamp. */
    method HandleGetToken(args: seq<string>, at: Timestamp) returns (reply: Reply)
      requires Valid() && Tokens(args)
      modifies this
      ensures Valid()
      ensures Outcome(reply, urls) == GetTokenResult(old(urls), args, at)
      ensures members == old(members)
    {
      if |args| != 1 {
        return GetTokenUsage;
      }
      var target := Classify(args[0]);
      var found := FindUnassigned();
      match found
      case None =>
        reply := NoneAvailable;
      case Some(i) =>
        AssignEffect(urls, i, target, at);
        reply := Url(urls[i].url);
        urls := Assign(urls, i, target, at);
    }

    /** `/gettoken`, behind the gate. */
    method GetToken(username: Option<string>, args: seq<string>, at: Timestamp) returns (reply: Reply)
      requires Valid() && Tokens(args)
      modifies this
      ensures Valid()
      ensures Outcome(reply, urls) == Restricted(username, old(members), old(urls), GetTokenResult(old(urls), args, at))
      ensures members == old(members)
    {
      var refusal := Gate(username, members);
      if refusal.Some? {
        reply := refusal.value;
      } else {
        reply := HandleGetToken(args, at);
      }
    }
  }
}
