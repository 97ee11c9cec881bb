/**
 * The finalizer that, in streamer mode, cancels the messages a streamer mode check matched, except
 * direct messages from a fixed list of users.
 */
module StreamerModeFinalizer {
  import opened Wrappers
  import opened ChatMessage

  const HideDmsExemptions: seq<string> := ["RyanLand", "Vattendroppen236", "Reasonless"]

  /**
   * The message is a direct message and `DirectMessageCheck.usernameMatches` accepts one of the
   * exempted names for it.
   */
  predicate Exempt(messageType: MessageType, usernameMatches: string -> bool)
  {
    messageType == DirectMessage && exists k :: 0 <= k < |HideDmsExemptions| && usernameMatches(HideDmsExemptions[k])
  }

  /** The message is cancelled: a streamer mode check with hiding enabled matched it, and it is not exempt. */
  predicate Cancels(check: Option<MessageCheck>, messageType: MessageType, usernameMatches: string -> bool)
  {
    check.Some? && check.value.StreamerModeCheck? && check.value.hideEnabled && !Exempt(messageType, usernameMatches)
  }

  /** `matchesDirectMessageExemptions`: the names are tried in order and the first match answers. */
  method MatchesDirectMessageExemptions(message: Message, usernameMatches: string -> bool) returns (exempt: bool)
    ensures exempt <==> Exempt(message.messageType, usernameMatches)
    ensures exempt ==> message.TypeIs(DirectMessage)
  {
    if message.TypeIs(DirectMessage) {
      for i := 0 to |HideDmsExemptions|
        invariant forall k :: 0 <= k < i ==> !usernameMatches(HideDmsExemptions[k])
      {
        if usernameMatches(HideDmsExemptions[i]) {
          return true;
        }
      }
    }
    return false;
  }

  /**
   * `receive`: cancels the message when `Cancels` holds, and otherwise leaves it as it was. The
   * message's stripped text is read but plays no part.
   */
  method Receive(message: Message, usernameMatches: string -> bool)
    modifies message
    ensures Cancels(old(message.check), message.messageType, usernameMatches) ==> message.CancelEffects()
    ensures !Cancels(old(message.check), message.messageType, usernameMatches) ==> unchanged(message)
    ensures old(message.check) == None ==> unchanged(message)
    ensures message.messageType != DirectMessage ==>
              (message.IsCancelled() <==>
                 old(message.IsCancelled()) || (old(message.check) == Some(StreamerModeCheck(true))))
  {
    var check := message.GetCheck();
    if check.Some? && check.value.StreamerModeCheck? && check.value.hideEnabled {
      var exempt := MatchesDirectMessageExemptions(message, usernameMatches);
      if !exempt {
        message.Cancel();
      }
    }
  }
}
