/**
 A C pointer that may be NULL, as the shell meets it: `strtok` returns NULL
 when a pass has no token left, and `parse_command` ends its array with one.
 */
module Nullable {

  datatype Option<+T> = None | Some(value: T)
}
