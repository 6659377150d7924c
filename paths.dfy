/**
 * What `sitemap_management.py` and `utils.py` both do with a path: split it into segments
 * and recognise a locale-and-brand segment.
 */
module Paths {
  import opened Strings

  /** `path.strip("/").split("/")`: the segments of a path. */
  function Segments(path: string): (parts: seq<string>)
    ensures |parts| >= 1
    ensures forall i :: 0 <= i < |parts| ==> '/' !in parts[i]
  {
    Split(Strip(path, '/'), '/')
  }

  /** `^[a-z]{2}_[a-z]$` (written `[a-z]{1}` in sitemap_management.py): a locale-and-brand code such as `en_s` or `tc_l`. */
  predicate IsLocaleCode(seg: string) {
    && |seg| == 4
    && IsAsciiLower(seg[0]) && IsAsciiLower(seg[1])
    && seg[2] == '_'
    && IsAsciiLower(seg[3])
  }
}
