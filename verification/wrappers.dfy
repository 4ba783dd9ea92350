/** Optional values: the model's stand-in for Python's `None` and for the
    exceptions (`ValueError`, `IndexError`, `ZeroDivisionError`) that the
    modelled code raises on empty inputs. */
module Wrappers {

  datatype Option<+T> = None | Some(value: T)
}
