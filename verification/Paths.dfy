/** Path strings: tokens, and the split into parent and child. */
module Paths {

  /** Length of the first token, up to the next separator. */
  function TokenLength(s: string): (n: nat)
    ensures n <= |s| && (forall k | 0 <= k < n :: s[k] != '/') && (n < |s| ==> s[n] == '/')
  {
    if s == "" || s[0] == '/' then 0 else 1 + TokenLength(s[1..])
  }

  /** The tokens strtok finds: maximal runs of characters other than '/'. */
  function Tokens(s: string): seq<string>
    decreases |s|
  {
    if s == "" then []
    else if s[0] == '/' then Tokens(s[1..])
    else [s[..TokenLength(s)]] + Tokens(s[TokenLength(s)..])
  }

  predicate IsAbsolute(path: string) {
    |path| > 0 && path[0] == '/'
  }

  /** Index of the last '/', as strrchr finds it. */
  function LastSlash(path: string): (k: nat)
    requires '/' in path
    ensures k < |path| && path[k] == '/' && '/' !in path[k + 1..]
  {
    var n := |path| - 1;
    if path[n] == '/' then n
    else
      assert path == path[..n] + [path[n]];
      var k := LastSlash(path[..n]);
      assert path[k + 1..] == path[..n][k + 1..] + [path[n]];
      k
  }

  function ParentPath(path: string): string
    requires '/' in path
  {
    if LastSlash(path) == 0 then "/" else path[..LastSlash(path)]
  }

  function ChildName(path: string): string
    requires '/' in path
  {
    path[LastSlash(path) + 1..]
  }

  lemma TokensOfName(s: string)
    requires '/' !in s
    ensures Tokens(s) == if s == "" then [] else [s]
  {
    if s != "" {
      assert TokenLength(s) == |s|;
      assert s[|s|..] == "" && s[..|s|] == s;
    }
  }

  lemma {:induction false} TokensConcat(x: string, y: string)
    ensures Tokens(x + "/" + y) == Tokens(x) + Tokens(y)
    decreases |x|
  {
    var s := x + "/" + y;
    if x == "" {
      assert s[1..] == y;
    } else if x[0] == '/' {
      assert s[1..] == x[1..] + "/" + y;
      TokensConcat(x[1..], y);
    } else {
      var n := TokenLength(x);
      TokenLengthPrefix(x, "/" + y);
      assert s == x + ("/" + y);
      assert s[..n] == x[..n];
      if n == |x| {
        assert s[n..] == "/" + y && s[n..][1..] == y && x[n..] == "";
      } else {
        assert s[n..] == x[n..] + "/" + y;
        TokensConcat(x[n..], y);
      }
    }
  }

  lemma {:induction false} TokenLengthPrefix(x: string, y: string)
    requires |y| > 0 && y[0] == '/'
    ensures TokenLength(x + y) == TokenLength(x)
  {
    if x != "" && x[0] != '/' {
      assert (x + y)[1..] == x[1..] + y;
      TokenLengthPrefix(x[1..], y);
    }
  }

  /**
   Parent and child rejoin to the path, the child holds no separator, and the tokens of
   the path are those of the parent followed by the child (if there is one).
   */
  lemma SplitRejoins(path: string)
    requires IsAbsolute(path)
    ensures var (parent, child) := (ParentPath(path), ChildName(path));
            && IsAbsolute(parent) && '/' !in child
            && path == (if LastSlash(path) == 0 then parent + child else parent + "/" + child)
            && Tokens(path) == Tokens(parent) + (if child == "" then [] else [child])
  {
    hide Tokens;
    var k := LastSlash(path);
    assert path == path[..k] + "/" + path[k + 1..];
    TokensConcat(path[..k], path[k + 1..]);
    TokensOfName(path[k + 1..]);
    NoTokens();
  }

  lemma NoTokens()
    ensures Tokens("") == [] && Tokens("/") == []
  {
  }

  /** A path of one component, directly below the root. */
  lemma PathOfOneName(path: string, name: string)
    requires path == "/" + name && name != "" && '/' !in name
    ensures IsAbsolute(path) && ParentPath(path) == "/" && ChildName(path) == name
    ensures Tokens(path) == [name] && Tokens("/") == []
  {
    assert LastSlash(path) == 0;
    assert path[1..] == name;
    SplitRejoins(path);
    NoTokens();
  }
}
