/** Text sanitisation applied to condition and medication labels before storage
    (`clean_text` in etl/loader_pipeline.py and, identically, in etl/loader.py). */
module Sanitize {

  /** Python's `s.replace(target, repl)` for one-character arguments: every
      occurrence of `target` becomes `repl`, everything else is kept in place. */
  function Replace(s: string, target: char, repl: char): (r: string)
    ensures |r| == |s|
    ensures forall i :: 0 <= i < |s| ==> r[i] == (if s[i] == target then repl else s[i])
  {
    if s == [] then [] else [if s[0] == target then repl else s[0]] + Replace(s[1..], target, repl)
  }

  /** The characters `clean_text` rewrites. */
  predicate IsSeparator(c: char) { c == '/' || c == '\\' || c == '[' || c == ']' }

  /** What `clean_text` does to a single character: slashes become '-',
      square brackets become round ones. */
  function CleanChar(c: char): (d: char)
    ensures !IsSeparator(d)
    ensures !IsSeparator(c) ==> d == c
  {
    if c == '/' || c == '\\' then '-'
    else if c == '[' then '('
    else if c == ']' then ')'
    else c
  }

  /** `clean_text`: four chained `str.replace` calls. Its contract states the
      result character by character through `CleanChar`. */
  function CleanText(text: string): (r: string)
    ensures |r| == |text|
    ensures forall i :: 0 <= i < |text| ==> r[i] == CleanChar(text[i])
    ensures forall i :: 0 <= i < |r| ==> !IsSeparator(r[i])
  {
    Replace(Replace(Replace(Replace(text, '/', '-'), '\\', '-'), '[', '('), ']', ')')
  }

  /** A label without separators is left as it is. */
  lemma CleanTextKeepsClean(text: string)
    requires forall i :: 0 <= i < |text| ==> !IsSeparator(text[i])
    ensures CleanText(text) == text
  {
    assert forall i :: 0 <= i < |text| ==> CleanText(text)[i] == text[i];
  }

  /** Cleaning an already cleaned label changes nothing. */
  lemma CleanTextIdempotent(text: string)
    ensures CleanText(CleanText(text)) == CleanText(text)
  {
    var once := CleanText(text);
    assert forall i :: 0 <= i < |once| ==> CleanText(once)[i] == once[i];
  }
}
