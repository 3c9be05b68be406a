/** Tilde expansion of user-supplied paths (`expand_tilde`). */
module Paths {
  import opened Options
  import opened Text

  /** `expand_tilde(path)`, with the home directory that `dirs::home_dir`
      resolves passed in as `home`. When the path starts with `~` the first
      `~` is replaced by the home directory; in every other case the path is
      returned as it is. */
  function ExpandTilde(path: string, home: Option<string>): (r: string)
    // only the leading `~` is replaced: the rest of the path is kept, later `~`s included
    ensures path != [] && path[0] == '~' && home.Some? ==> r == home.value + path[1..]
    ensures path == [] || path[0] != '~' || home.None? ==> r == path
  {
    if "~" <= path then
      match home
      case Some(h) => ReplaceFirst(path, '~', h)
      case None => path
    else
      path
  }
}
