/**
 * A received system chat message: its type (fixed when the message is classified), the check that
 * classified it, and whether it has been cancelled. Cancelling also has effects on collaborators
 * (the packet's callback, the next sound, the message grabber); those are recorded as fields.
 */
module ChatMessage {
  import opened Wrappers

  /** Java's 32-bit `int`. */
  newtype int32 = x: int | -0x8000_0000 <= x < 0x8000_0000

  /** `a - 1` in Java's 32-bit arithmetic, which wraps around at the minimum value. */
  function Decrement(a: int32): (r: int32)
    ensures (r as int - (a as int - 1)) % 0x1_0000_0000 == 0
    ensures a as int > -0x8000_0000 ==> r as int == a as int - 1
  {
    if a == -0x8000_0000 then 0x7fff_ffff else a - 1
  }

  /** The message types the chat checks name; every other constant of the enum is `OtherType`. */
  datatype MessageType = JoinDiamondFire | DirectMessage | OtherType(name: string)

  /** What `MessageType.hasSound()` and `MessageType.getMessageAmount()` answer for each type. */
  datatype TypeTraits = TypeTraits(hasSound: MessageType -> bool, messageAmount: MessageType -> int32)

  /**
   * The check that classified a message. A streamer mode check carries what its
   * `streamerHideEnabled()` answers.
   */
  datatype MessageCheck = StreamerModeCheck(hideEnabled: bool) | OtherCheck(name: string)

  class Message {
    /** `getStripped()`: the text without formatting. */
    const stripped: string
    /** The type `MessageCheck.run` gave the message. */
    const messageType: MessageType
    const traits: TypeTraits
    /** The check that matched, `null` (None) until one is set. */
    var check: Option<MessageCheck>
    var cancelled: bool
    /** Whether `callback.cancel()` has been called. */
    var callbackCancelled: bool
    /** How many times `LegacyReceiveSoundEvent.cancelNextSound()` has been called. */
    var soundCancels: nat
    /** The arguments of the calls to `MessageGrabber.hide`, in order. */
    var hideRequests: seq<int32>

    constructor (stripped: string, messageType: MessageType, traits: TypeTraits)
      ensures this.stripped == stripped && this.messageType == messageType && this.traits == traits
      ensures check == None && !cancelled
      ensures !callbackCancelled && soundCancels == 0 && hideRequests == []
    {
      this.stripped := stripped;
      this.messageType := messageType;
      this.traits := traits;
      check := None;
      cancelled := false;
      callbackCancelled := false;
      soundCancels := 0;
      hideRequests := [];
    }

    function GetCheck(): Option<MessageCheck>
      reads this
    {
      check
    }

    function IsCancelled(): bool
      reads this
    {
      cancelled
    }

    method SetCheck(c: Option<MessageCheck>)
      modifies this`check
      ensures GetCheck() == c
    {
      check := c;
    }

    /** `typeIs(t)`: the type is compared by identity, and it never changes. */
    function TypeIs(t: MessageType): (b: bool)
      ensures b <==> messageType == t
    {
      messageType == t
    }

    /** The state after `cancel()`, relative to the state before it. */
    twostate predicate CancelEffects()
      reads this
    {
      && cancelled
      && callbackCancelled
      && soundCancels == old(soundCancels) + (if traits.hasSound(messageType) then 1 else 0)
      && hideRequests == old(hideRequests) + [Decrement(traits.messageAmount(messageType))]
      && check == old(check)
    }

    /**
     * `cancel()`: marks the message cancelled, cancels its callback, cancels the next sound when
     * its type has one, and asks the grabber to hide the `getMessageAmount() - 1` messages that
     * follow.
     */
    method Cancel()
      modifies this
      ensures CancelEffects()
      ensures IsCancelled()
    {
      cancelled := true;
      callbackCancelled := true;
      if traits.hasSound(messageType) {
        soundCancels := soundCancels + 1;
      }
      hideRequests := hideRequests + [Decrement(traits.messageAmount(messageType))];
    }
  }
}
