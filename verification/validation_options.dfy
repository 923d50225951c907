/** `ValidationOptions`: the message, `empty` and `optional` settings shared
    by the built-in validators. */
module ValidationSettings {
  import opened Wrappers

  const DefaultMessage: string := "Input not valid"

  /** The three settings as they stand at one moment. */
  datatype Settings = Settings(message: string, empty: bool, optional: bool)

  const Defaults: Settings := Settings(DefaultMessage, true, true)

  /** The option dictionary given to the constructor: a key is either
      present with its value or absent. */
  datatype OptionsDict = OptionsDict(message: Option<string>, empty: Option<bool>, optional: Option<bool>)

  /** The settings a constructor call produces: each key present overrides
      its default, each absent key keeps it. */
  function Configured(options: Option<OptionsDict>): (s: Settings)
    ensures options.None? ==> s == Defaults
    ensures options.Some? ==>
      (options.value.message.Some? ==> s.message == options.value.message.value)
      && (options.value.message.None? ==> s.message == DefaultMessage)
      && (options.value.empty.Some? ==> s.empty == options.value.empty.value)
      && (options.value.empty.None? ==> s.empty)
      && (options.value.optional.Some? ==> s.optional == options.value.optional.value)
      && (options.value.optional.None? ==> s.optional)
  {
    var o := options.GetOr(OptionsDict(None, None, None));
    Settings(o.message.GetOr(DefaultMessage), o.empty.GetOr(true), o.optional.GetOr(true))
  }

  class ValidationOptions {
    var message: string
    var empty: bool
    var optional: bool

    function Snapshot(): Settings
      reads this
    {
      Settings(message, empty, optional)
    }

    /** `ValidationOptions(options)`; `None` stands for an empty dictionary. */
    constructor (options: Option<OptionsDict>)
      ensures Snapshot() == Configured(options)
    {
      var s := Configured(options);
      message := s.message;
      empty := s.empty;
      optional := s.optional;
    }
  }

  /** `ValidationOptions.select(user)`: the caller's own object when one is
      given (an object is always truthy), otherwise a fresh default one. */
  method Select(user: ValidationOptions?) returns (r: ValidationOptions)
    ensures user != null ==> r == user
    ensures user == null ==> fresh(r) && r.Snapshot() == Defaults
  {
    if user != null {
      return user;
    }
    r := new ValidationOptions(None);
  }
}
