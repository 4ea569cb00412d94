/** The change-only property setter that the view models of
    InferNetHOL.Clustering/Models repeat for every notifying property: store
    the new value, and raise `PropertyChanged` only when it differs from the
    current one. Raised notifications are recorded as a log of property
    names; the handlers they reach are not part of this model. */
module Notifications {

  /** The field and the log after `if (field != value) { field = value;
      OnPropertyChanged(name); }`. */
  function ChangeOnly<T(==)>(current: T, value: T, log: seq<string>, name: string): (r: (T, seq<string>))
    ensures r.0 == value
    ensures r.1 == log || r.1 == log + [name]
    ensures r.1 == log <==> current == value
  {
    if current != value then (value, log + [name]) else (current, log)
  }

  /** Setting the value a setter has just stored changes nothing more, so
      assigning the same value twice notifies at most once. */
  lemma ChangeOnlyIdempotent<T>(current: T, value: T, log: seq<string>, name: string)
    ensures var (v, l) := ChangeOnly(current, value, log, name);
      ChangeOnly(v, value, l, name) == (v, l)
  {
  }
}
