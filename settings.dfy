/**
 * The plugin options the core reads. `hide_me_classname` is abstracted into
 * a per-element "carries the marker class" flag and `readmore_link` into the
 * presence of an expand control, so neither appears here.
 */
module Settings {

  datatype Options = Options(
    minHeight: int,              // minheight
    maxHeight: int,              // maxheight
    ignoreChildren: seq<string>, // ignore_children, lower-case tag names
    skipElements: seq<string>,   // skip_elements, lower-case tag names
    delimiters: set<char>)       // split_using, as the characters its one capture group matches

  /** The characters of the default pattern /(\.|,|-|–|\?|\!)/g. */
  const DefaultDelimiters: set<char> := {'.', ',', '-', '\U{2013}', '?', '!'}

  /** The defaults passed to `$.extend`. */
  const Defaults: Options := Options(50, 200, ["a", "i", "strong", "h1", "h2", "h3"], [], DefaultDelimiters)
}
