/** Looking up other users by name (`useUserSearch`). The query runs
    against the profile table: every profile other than the user's own
    whose username or display name contains the query, ignoring case, at
    most ten of them, in the order the table returns them. */
module Search {
  import opened Prelude
  import opened Entities
  import opened Text
  import opened Lists

  /** The `limit` of the query. */
  const ResultLimit: nat := 10

  /** A profile the query selects. The pattern is built from the query as
      typed, not trimmed. */
  predicate Matches(p: Profile, user: string, query: string) {
    p.id != user
    && (ContainsIgnoringCase(p.username, query) || ContainsIgnoringCase(p.displayName, query))
  }

  /** Every profile the query selects, in table order. */
  function Candidates(profiles: seq<Profile>, user: string, query: string): seq<Profile> {
    Filter(profiles, (p: Profile) => Matches(p, user, query))
  }

  /** `search(query)`: no results, without reading, when there is no user
      or the query is blank; no results when the read fails; otherwise the
      first ten matching profiles. The previous results play no part. */
  function SearchUsers(profiles: seq<Profile>, user: Option<string>, query: string, reply: Reply)
    : (r: seq<Profile>)
    ensures !Present(user) || Blank(query) || reply.Failed? ==> r == []
    ensures |r| <= ResultLimit
    ensures forall i :: 0 <= i < |r| ==> r[i] in profiles && r[i].id != user.GetOr("")
    ensures forall i :: 0 <= i < |r| ==>
              ContainsIgnoringCase(r[i].username, query) || ContainsIgnoringCase(r[i].displayName, query)
  {
    if !Present(user) || Trim(query) == "" then []
    else if reply.Failed? then []
    else
      var all := Candidates(profiles, user.value, query);
      var r := Take(all, ResultLimit);
      assert forall i :: 0 <= i < |r| ==> r[i] == all[i];
      r
  }

  /** A search that reads returns the first matches in table order, so it
      misses a match only when ten others come before it. */
  lemma SearchIsFirstMatches(profiles: seq<Profile>, user: Option<string>, query: string)
    requires Present(user) && !Blank(query)
    ensures var r := SearchUsers(profiles, user, query, Ok);
            var all := Candidates(profiles, user.value, query);
            && r <= all
            && |r| == (if |all| < ResultLimit then |all| else ResultLimit)
            && (|all| <= ResultLimit ==> r == all)
  {
  }

  /** Every matching profile is found when there are at most ten. */
  lemma SearchFindsFewMatches(profiles: seq<Profile>, user: Option<string>, query: string, p: Profile)
    requires Present(user) && !Blank(query)
    requires |Candidates(profiles, user.value, query)| <= ResultLimit
    requires p in profiles && Matches(p, user.value, query)
    ensures p in SearchUsers(profiles, user, query, Ok)
  {
    var all := Candidates(profiles, user.value, query);
    var i :| 0 <= i < |profiles| && profiles[i] == p;
    assert profiles[i] in all;
    SearchIsFirstMatches(profiles, user, query);
  }

  /** Another user whose username is the query, up to case, is a match. */
  lemma UsernameUpToCaseMatches(p: Profile, user: string, query: string)
    requires p.id != user && LowerString(p.username) == LowerString(query)
    ensures Matches(p, user, query)
  {
    SameUpToCaseContains(p.username, query);
  }

  /** `clearResults()`. */
  function ClearResults(): (r: seq<Profile>)
    ensures |r| == 0
  {
    []
  }
}
