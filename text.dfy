/** String helpers standing in for the Python text operations main.py uses:
    `str.strip()` emptiness, ASCII `str.lower()`, the `in` substring test,
    slicing with `[:n]`, and `pathlib.Path(...).stem`. */
module Text {

  /** The conventional optional value (Python's `Optional[...]`). */
  datatype Option<+T> = None | Some(value: T) {
    function GetOr(default: T): T {
      if Some? then value else default
    }
  }

  /** Python's `str.isspace()` for one character: the whitespace that
      `str.strip()` removes. */
  predicate IsSpace(c: char) {
    || c == ' '
    || ('\t' <= c <= '\r')
    || ('\U{1C}' <= c <= '\U{1F}')
    || c == '\U{85}' || c == '\U{A0}' || c == '\U{1680}'
    || ('\U{2000}' <= c <= '\U{200A}')
    || c == '\U{2028}' || c == '\U{2029}' || c == '\U{202F}'
    || c == '\U{205F}' || c == '\U{3000}'
  }

  /** `not s.strip()`: the string is empty or made of whitespace only. */
  predicate IsBlank(s: string) {
    forall i | 0 <= i < |s| :: IsSpace(s[i])
  }

  /** ASCII lower-casing of one character. */
  function LowerChar(c: char): (r: char)
    ensures 'A' <= c <= 'Z' ==> 'a' <= r <= 'z'
    ensures !('A' <= c <= 'Z') ==> r == c
  {
    if 'A' <= c <= 'Z' then (c as int - 'A' as int + 'a' as int) as char else c
  }

  /** `s.lower()`, restricted to ASCII letters. */
  function ToLower(s: string): (r: string)
    ensures |r| == |s|
    ensures forall i | 0 <= i < |s| :: r[i] == LowerChar(s[i])
  {
    seq(|s|, i requires 0 <= i < |s| => LowerChar(s[i]))
  }

  /** `p` occurs in `s` starting at index `i`. */
  predicate OccursAt(s: string, p: string, i: int) {
    0 <= i && i + |p| <= |s| && s[i..i + |p|] == p
  }

  /** Python's `p in s`, scanning `s` from the left. */
  function Contains(s: string, p: string): (r: bool)
    ensures r <==> exists i :: OccursAt(s, p, i)
    decreases |s|
  {
    if |p| > |s| then false
    else if s[..|p|] == p then assert OccursAt(s, p, 0); true
    else
      var r := Contains(s[1..], p);
      assert forall i :: OccursAt(s[1..], p, i) <==> OccursAt(s, p, i + 1) by {
        forall i ensures OccursAt(s[1..], p, i) <==> OccursAt(s, p, i + 1) {
          if 0 <= i && i + |p| <= |s| - 1 {
            assert s[1..][i..i + |p|] == s[i + 1..i + 1 + |p|];
          }
        }
      }
      assert !OccursAt(s, p, 0);
      assert forall i :: OccursAt(s, p, i) ==> i == 0 || OccursAt(s[1..], p, i - 1);
      r
  }

  /** Python's `s[:n]` for `n >= 0`. */
  function Take(s: string, n: nat): (r: string)
    ensures |r| == if |s| <= n then |s| else n
    ensures r == s[..|r|]
  {
    if |s| > n then s[..n] else s
  }

  /** Python's `s.rfind(c)`: the last index holding `c`, or -1. */
  function LastIndexOf(s: string, c: char): (r: int)
    ensures -1 <= r < |s|
    ensures r >= 0 ==> s[r] == c
    ensures forall j | r < j < |s| :: s[j] != c
    decreases |s|
  {
    if |s| == 0 then -1
    else if s[|s| - 1] == c then |s| - 1
    else LastIndexOf(s[..|s| - 1], c)
  }

  /** The last component of a '/'-separated path (`Path(p).name`). */
  function BaseName(p: string): (r: string)
    ensures forall j | 0 <= j < |r| :: r[j] != '/'
    ensures |r| <= |p| && r == p[|p| - |r|..]
  {
    p[LastIndexOf(p, '/') + 1..]
  }

  /** `Path(p).stem`: the last component without its final suffix; a leading
      dot or a trailing dot does not start a suffix. */
  function Stem(p: string): (r: string)
    ensures |r| <= |BaseName(p)| && r == BaseName(p)[..|r|]
    ensures forall j | 0 <= j < |r| :: r[j] != '/'
  {
    var name := BaseName(p);
    var dot := LastIndexOf(name, '.');
    if 0 < dot < |name| - 1 then name[..dot] else name
  }

  lemma {:induction false} StemOfFile(dir: string, name: string, ext: string)
    requires forall j | 0 <= j < |name| :: name[j] != '/'
    requires forall j | 0 <= j < |ext| :: ext[j] != '/' && ext[j] != '.'
    requires |name| > 0 && |ext| > 0
    ensures Stem(dir + "/" + name + "." + ext) == name
  {
    var p := dir + "/" + name + "." + ext;
    var tail := name + "." + ext;
    var slash := |dir|;
    assert p[slash] == '/';
    assert forall j | slash < j < |p| :: p[j] == tail[j - slash - 1];
    assert LastIndexOf(p, '/') == slash;
    assert p[slash + 1..] == tail;
    var dot := |name|;
    assert tail[dot] == '.';
    assert forall j | dot < j < |tail| :: tail[j] == ext[j - dot - 1];
    assert LastIndexOf(tail, '.') == dot;
    assert tail[..dot] == name;
  }
}
