/**
 * The `members` table: a sequence of usernames whose column is UNIQUE, the
 * case-insensitive membership query and the bootstrap seeding done at start-up.
 */
module Members {
  import opened Text

  /** The member that start-up inserts when it is missing. */
  const Bootstrap: string := "xidea404"

  /** `SELECT 1 FROM members WHERE LOWER(username) = lower(u)` finds a row. */
  function IsMember(members: seq<string>, username: string): (r: bool)
    ensures r <==> exists i :: 0 <= i < |members| && Lower(members[i]) == Lower(username)
  {
    if members == [] then false
    else if Lower(members[0]) == Lower(username) then true
    else
      var r := IsMember(members[1..], username);
      assert r ==> exists i :: 0 < i < |members| && Lower(members[i]) == Lower(username) by {
        if r {
          var i :| 0 <= i < |members[1..]| && Lower(members[1..][i]) == Lower(username);
          assert members[i + 1] == members[1..][i];
        }
      }
      r
  }

  /** Membership is a question about the lower-cased name only. */
  lemma IsMemberIgnoresCase(members: seq<string>, u: string, v: string)
    requires Lower(u) == Lower(v)
    ensures IsMember(members, u) == IsMember(members, v)
  {
  }

  /** After appending a row, exactly the case variants of it are new members. */
  lemma IsMemberAppend(members: seq<string>, name: string, username: string)
    ensures IsMember(members + [name], username) <==> IsMember(members, username) || Lower(name) == Lower(username)
  {
    var m := members + [name];
    if IsMember(m, username) && !IsMember(members, username) {
      var i :| 0 <= i < |m| && Lower(m[i]) == Lower(username);
      assert i == |members|;
    }
    if IsMember(members, username) {
      var i :| 0 <= i < |members| && Lower(members[i]) == Lower(username);
      assert m[i] == members[i];
    }
    if Lower(name) == Lower(username) {
      assert m[|members|] == name;
    }
  }

  /** The UNIQUE constraint on `username`. */
  ghost predicate Unique(members: seq<string>) {
    forall i, j :: 0 <= i < j < |members| ==> members[i] != members[j]
  }

  /** Inserting a name that no row matches case-insensitively keeps UNIQUE. */
  lemma AppendKeepsUnique(members: seq<string>, name: string)
    requires Unique(members)
    requires !IsMember(members, name)
    ensures Unique(members + [name])
  {
    var m := members + [name];
    forall i, j | 0 <= i < j < |m| ensures m[i] != m[j] {
      if j == |members| {
        assert Lower(members[i]) != Lower(name);
      } else {
        assert m[i] == members[i] && m[j] == members[j];
      }
    }
  }

  /** The number of rows equal to `username` up to case. */
  function CountMatching(members: seq<string>, username: string): nat
  {
    if members == [] then 0
    else (if Lower(members[0]) == Lower(username) then 1 else 0) + CountMatching(members[1..], username)
  }

  lemma {:induction false} CountMatchingIsMember(members: seq<string>, username: string)
    ensures CountMatching(members, username) > 0 <==> IsMember(members, username)
  {
    if members != [] {
      CountMatchingIsMember(members[1..], username);
    }
  }

  lemma {:induction false} CountMatchingAppend(members: seq<string>, name: string, username: string)
    ensures CountMatching(members + [name], username)
         == CountMatching(members, username) + (if Lower(name) == Lower(username) then 1 else 0)
  {
    if members == [] {
      assert members + [name] == [name];
    } else {
      assert (members + [name])[1..] == members[1..] + [name];
      CountMatchingAppend(members[1..], name, username);
    }
  }

  /** `init_db`'s seeding step: insert the bootstrap member unless some row matches it. */
  function Seed(members: seq<string>): (r: seq<string>)
    ensures IsMember(r, Bootstrap)
    ensures IsMember(members, Bootstrap) ==> r == members
    ensures r == members || r == members + [Bootstrap]
  {
    if IsMember(members, Bootstrap) then members
    else
      IsMemberAppend(members, Bootstrap, Bootstrap);
      members + [Bootstrap]
  }

  /** Seeding is idempotent: a second start-up leaves the table as the first left it. */
  lemma SeedIdempotent(members: seq<string>)
    ensures Seed(Seed(members)) == Seed(members)
  {
  }

  /** Seeding adds a row only when none matches, so at most one bootstrap row is ever created. */
  lemma SeedLeavesOneBootstrap(members: seq<string>)
    requires CountMatching(members, Bootstrap) <= 1
    ensures CountMatching(Seed(members), Bootstrap) == 1
  {
    CountMatchingIsMember(members, Bootstrap);
    if !IsMember(members, Bootstrap) {
      CountMatchingAppend(members, Bootstrap, Bootstrap);
    }
  }

  lemma {:induction false} SeedKeepsUnique(members: seq<string>)
    requires Unique(members)
    ensures Unique(Seed(members))
  {
    if !IsMember(members, Bootstrap) {
      AppendKeepsUnique(members, Bootstrap);
    }
  }
}
