/**
 * The pin controller (the RPi.GPIO library) as the daemon sees it: the three
 * calls it makes and what each call can report back. Pins use the board
 * (connector) numbering selected by `GPIO.setmode(GPIO.BOARD)`; turning a
 * connector position into a chip channel is the controller's business.
 */
module Gpio {
  datatype Level = Low | High

  datatype Pull = PullUp | PullDown

  datatype Direction = Out | In

  /** The keyword argument of `GPIO.setup`: none, `initial=` or `pull_up_down=`. */
  datatype SetupOption = NoOption | Initial(level: Level) | Resistor(pull: Pull)

  /** One call into the controller. */
  datatype Action =
    | Setup(pin: int, dir: Direction, option: SetupOption)  // GPIO.setup
    | Write(pin: int, level: Level)                         // GPIO.output
    | Read(pin: int)                                        // GPIO.input

  /**
   * What a call reports: it returns (for `GPIO.input`, a value whose truth is
   * `value`; the other calls ignore it), it raises
   * `GPIO.WrongDirectionException`, it raises an `IOError` (or a subclass),
   * or it raises anything else (an invalid channel, ...). The library is not
   * part of this model, so any reply may come back from any call.
   */
  datatype Reply = Returned(value: bool) | WrongDirection | IOFailure | OtherError

  /**
   * The controller as an oracle. Whatever state it keeps is a function of
   * the calls made so far, so its reply to a call is a function of the
   * earlier calls and of the call itself.
   */
  type Controller = (seq<Action>, Action) -> Reply
}
