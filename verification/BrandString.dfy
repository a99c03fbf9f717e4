/** The in-place loop of `get_cpu_brand_string` (kernel/src/simd/simd.c) that squeezes runs of spaces. */
module BrandString {

  /** What the loop leaves: no space at the front, one space for every later run of them. */
  function Squeeze(s: string): (r: string)
    ensures |r| <= |s|
  {
    if s == [] then []
    else
      var r, c := Squeeze(s[..|s| - 1]), s[|s| - 1];
      if c != ' ' then r + [c] else if r == [] || r[|r| - 1] == ' ' then r else r + [c]
  }

  /** The words of a text: its longest stretches without a space. */
  function Words(s: string): (w: seq<string>)
    ensures s != [] && s[|s| - 1] != ' ' ==> w != []
  {
    if s == [] then []
    else
      var w, c := Words(s[..|s| - 1]), s[|s| - 1];
      if c == ' ' then w
      else if 2 <= |s| && s[|s| - 2] != ' ' then w[..|w| - 1] + [w[|w| - 1] + [c]]
      else w + [[c]]
  }

  /** No space at the front and no two in a row. */
  predicate IsTidy(s: string) {
    (s != [] ==> s[0] != ' ') && forall i :: 1 <= i < |s| && s[i] == ' ' ==> s[i - 1] != ' '
  }

  lemma WordsAppend(s: string, c: char)
    ensures Words(s + [c]) ==
      if c == ' ' then Words(s)
      else if s != [] && s[|s| - 1] != ' ' then Words(s)[..|Words(s)| - 1] + [Words(s)[|Words(s)| - 1] + [c]]
      else Words(s) + [[c]]
  {
    assert (s + [c])[..|s|] == s;
  }

  predicate EndsInLetter(s: string) {
    s != [] && s[|s| - 1] != ' '
  }

  /** Squeezing makes a text tidy, and keeps whether it ends in a letter. */
  lemma {:induction false} SqueezeTidies(s: string)
    ensures IsTidy(Squeeze(s)) && (EndsInLetter(s) <==> EndsInLetter(Squeeze(s)))
  {
    if s != [] {
      SqueezeTidies(s[..|s| - 1]);
    }
  }

  /** Squeezing keeps the words. */
  lemma {:induction false} SqueezeKeepsWords(s: string)
    ensures Words(Squeeze(s)) == Words(s)
  {
    if s != [] {
      var front, c := s[..|s| - 1], s[|s| - 1];
      SqueezeKeepsWords(front);
      SqueezeTidies(front);
      assert s == front + [c];
      WordsAppend(front, c);
      WordsAppend(Squeeze(front), c);
    }
  }

  /** Exactly the tidy texts are left as they are. */
  lemma {:induction false} TidyIsKept(s: string)
    ensures Squeeze(s) == s <==> IsTidy(s)
  {
    if IsTidy(s) && s != [] {
      TidyIsKept(s[..|s| - 1]);
      assert s == s[..|s| - 1] + [s[|s| - 1]];
    }
    SqueezeTidies(s);
  }

  /** One more character, with the source's tests. */
  lemma SqueezeNext(s: string, k: nat)
    requires k < |s|
    ensures var r, c := Squeeze(s[..k]), s[k];
      Squeeze(s[..k + 1]) == if c == ' ' && ((k != 0 && s[k - 1] == ' ') || r == []) then r else r + [c]
  {
    SqueezeTidies(s[..k]);
    assert s[..k + 1][..k] == s[..k];
  }

  /** The loop, over the `n` characters before the NUL. */
  method SqueezeSpaces(brand: array<char>, ghost n: nat)
    requires n < brand.Length && brand[n] == '\0' && forall i :: 0 <= i < n ==> brand[i] != '\0'
    modifies brand
    ensures var r := Squeeze(old(brand[..n])); brand[..] == r + ['\0'] + old(brand[|r| + 1..])
  {
    ghost var text := brand[..n];
    var dst := SqueezeLoop(brand, n);
    ghost var rest := brand[dst..];
    brand[dst] := '\0';
    assert brand[dst + 1..] == rest[1..] == old(brand[dst + 1..]);
    assert brand[..dst] == Squeeze(text);
  }

  method SqueezeLoop(brand: array<char>, ghost n: nat) returns (dst: nat)
    requires n < brand.Length && brand[n] == '\0' && forall i :: 0 <= i < n ==> brand[i] != '\0'
    modifies brand
    ensures dst <= n && brand[..dst] == Squeeze(old(brand[..n])) && brand[dst..] == old(brand[dst..])
  {
    ghost var text := brand[..n];
    var src := 0;
    dst := 0;
    var prevSpace := false;
    while brand[src] != '\0'
      invariant 0 <= dst <= src <= n && forall k :: dst <= k < brand.Length ==> brand[k] == old(brand[k])
      invariant brand[..dst] == Squeeze(text[..src])
      invariant prevSpace <==> src != 0 && text[src - 1] == ' '
      decreases n - src
    {
      SqueezeNext(text, src);
      if brand[src] == ' ' {
        if !prevSpace && dst != 0 {
          brand[dst] := ' ';
          dst := dst + 1;
        }
        prevSpace := true;
      } else {
        brand[dst] := brand[src];
        dst := dst + 1;
        prevSpace := false;
      }
      src := src + 1;
    }
    assert text[..n] == text;
  }
}
