/** The three texts the command builds around a tag, and the inverse readings
    that recover the tag (and the actor) from them. */
module Messages {
  import opened Wrappers

  const AckPrefix: string := "Successfully deleted the tag of \""
  const AckSuffix: string := "\"."
  const MissingPrefix: string := "The tag of \""
  const MissingSuffix: string := "\" does not exist on this game yet."
  const BroadcastMiddle: string := " has deleted a game tag of \""
  const BroadcastSuffix: string := "\"."

  /** The private acknowledgement of a live-mode delete. */
  function DeletedAck(tag: string): string {
    AckPrefix + tag + AckSuffix
  }

  /** The warning for a tag that is not on the game. */
  function MissingWarning(tag: string): string {
    MissingPrefix + tag + MissingSuffix
  }

  /** The public room notice of a replay-mode delete. */
  function DeletedBroadcast(username: string, tag: string): string {
    username + BroadcastMiddle + tag + BroadcastSuffix
  }

  /** The text strictly between `prefix` and `suffix`, if `m` has that shape. */
  function Between(m: string, prefix: string, suffix: string): (r: Option<string>)
    ensures r.Some? ==> m == prefix + r.value + suffix
  {
    if |prefix| + |suffix| <= |m| && m[..|prefix|] == prefix && m[|m| - |suffix|..] == suffix
    then
      var inner := m[|prefix|..|m| - |suffix|];
      assert m == m[..|prefix|] + inner + m[|m| - |suffix|..];
      Some(inner)
    else None
  }

  lemma BetweenRoundTrip(prefix: string, tag: string, suffix: string)
    ensures Between(prefix + tag + suffix, prefix, suffix) == Some(tag)
  {
  }

  /** Reads the tag back out of an acknowledgement. */
  function TagOfAck(m: string): (r: Option<string>)
    ensures r.Some? ==> DeletedAck(r.value) == m
  {
    Between(m, AckPrefix, AckSuffix)
  }

  /** Reads the tag back out of a "does not exist" warning. */
  function TagOfMissingWarning(m: string): (r: Option<string>)
    ensures r.Some? ==> MissingWarning(r.value) == m
  {
    Between(m, MissingPrefix, MissingSuffix)
  }

  /** Reads the tag back out of a room notice, given who sent it. */
  function TagOfBroadcast(username: string, m: string): (r: Option<string>)
    ensures r.Some? ==> DeletedBroadcast(username, r.value) == m
  {
    Between(m, username + BroadcastMiddle, BroadcastSuffix)
  }

  /** The private acknowledgement names exactly the deleted tag. */
  lemma AckNamesTag(tag: string)
    ensures TagOfAck(DeletedAck(tag)) == Some(tag)
  {
    BetweenRoundTrip(AckPrefix, tag, AckSuffix);
  }

  /** The "does not exist" warning names exactly the requested tag. */
  lemma MissingWarningNamesTag(tag: string)
    ensures TagOfMissingWarning(MissingWarning(tag)) == Some(tag)
  {
    BetweenRoundTrip(MissingPrefix, tag, MissingSuffix);
  }

  /** The room notice starts with the actor's name and names exactly the
      deleted tag. */
  lemma BroadcastNamesActorAndTag(username: string, tag: string)
    ensures DeletedBroadcast(username, tag)[..|username|] == username
    ensures TagOfBroadcast(username, DeletedBroadcast(username, tag)) == Some(tag)
  {
    BetweenRoundTrip(username + BroadcastMiddle, tag, BroadcastSuffix);
  }
}
