/** The paper record both fetchers return, the target count, and the
    Python slice `s[:n]` used to cap a list. */
module Papers {

  /** The `{title, summary, link}` dictionary of one paper. */
  datatype Paper = Paper(title: string, summary: string, link: string)

  /** How many papers a fetch aims for. */
  const MaxPapers: nat := 5

  /** Python's `s[:n]`: the longest prefix of `s` of length at most `n`. */
  function Take<T>(s: seq<T>, n: nat): (r: seq<T>)
    ensures r <= s
    ensures |r| == if |s| <= n then |s| else n
  {
    if |s| <= n then s else s[..n]
  }
}
