/** Normalisation of a hex payload text already read from its file: every
    line feed, carriage return and space is erased, in place, by three
    erase-remove passes, and a text left with an odd number of characters is
    rejected. The characters are returned as they are, still as text. */
module Payload {
  import opened Wrappers

  datatype PayloadError = OddHexLength(length: nat)

  /** The three characters the loader erases. Tabs and all else are kept. */
  predicate IsErased(c: char) {
    c == '\n' || c == '\r' || c == ' '
  }

  /** `erase(remove(begin, end, c), end)`: `s` without any `c`, built element
      by element from the front as the compaction loop builds it. */
  function RemoveAll(s: seq<char>, c: char): (r: seq<char>)
    ensures |r| <= |s|
    ensures c !in r
  {
    if s == [] then []
    else RemoveAll(s[..|s| - 1], c) + (if s[|s| - 1] == c then [] else [s[|s| - 1]])
  }

  /** The three passes, in the loader's order. */
  function Stripped(s: seq<char>): seq<char> {
    RemoveAll(RemoveAll(RemoveAll(s, '\n'), '\r'), ' ')
  }

  /** Reference definition: one pass keeping every character that is not
      erased, in its original order. */
  function KeepPayloadChars(s: seq<char>): seq<char> {
    if s == [] then [] else (if IsErased(s[0]) then [] else [s[0]]) + KeepPayloadChars(s[1..])
  }

  /** `a` is `b` with some elements deleted and the rest in order. */
  predicate IsSubsequence(a: seq<char>, b: seq<char>)
    decreases |b|
  {
    if a == [] then true
    else if b == [] then false
    else if a[0] == b[0] then IsSubsequence(a[1..], b[1..])
    else IsSubsequence(a, b[1..])
  }

  lemma {:induction false} RemoveAllAppend(u: seq<char>, v: seq<char>, c: char)
    ensures RemoveAll(u + v, c) == RemoveAll(u, c) + RemoveAll(v, c)
    decreases |v|
  {
    if v == [] {
      assert u + v == u;
    } else {
      var w := v[..|v| - 1];
      assert (u + v)[..|u + v| - 1] == u + w;
      assert (u + v)[|u + v| - 1] == v[|v| - 1];
      RemoveAllAppend(u, w, c);
    }
  }

  /** Extending both texts by the same character keeps the relation. */
  lemma {:induction false} SubsequenceSnoc(a: seq<char>, b: seq<char>, x: char)
    requires IsSubsequence(a, b)
    ensures IsSubsequence(a + [x], b + [x])
    decreases |b|
  {
    if a == [] {
      if b != [] && b[0] != x {
        SubsequenceSnoc(a, b[1..], x);
        assert (b + [x])[1..] == b[1..] + [x];
      }
    } else if a[0] == b[0] {
      SubsequenceSnoc(a[1..], b[1..], x);
      assert (a + [x])[1..] == a[1..] + [x];
      assert (b + [x])[1..] == b[1..] + [x];
    } else {
      SubsequenceSnoc(a, b[1..], x);
      assert (b + [x])[1..] == b[1..] + [x];
    }
  }

  /** Extending only the longer text keeps the relation. */
  lemma {:induction false} SubsequenceExtend(a: seq<char>, b: seq<char>, x: char)
    requires IsSubsequence(a, b)
    ensures IsSubsequence(a, b + [x])
    decreases |b|
  {
    if a != [] {
      assert (b + [x])[1..] == b[1..] + [x];
      if a[0] == b[0] {
        SubsequenceExtend(a[1..], b[1..], x);
      } else {
        SubsequenceExtend(a, b[1..], x);
      }
    }
  }

  /** One erase-remove pass keeps every other character as often as it
      occurs. */
  lemma {:induction false} RemoveAllKeeps(s: seq<char>, c: char, x: char)
    requires x != c
    ensures multiset(RemoveAll(s, c))[x] == multiset(s)[x]
    decreases |s|
  {
    if s != [] {
      RemoveAllKeeps(s[..|s| - 1], c, x);
      assert s == s[..|s| - 1] + [s[|s| - 1]];
    }
  }

  /** One erase-remove pass keeps the remaining characters in their original
      order. */
  lemma {:induction false} RemoveAllIsSubsequence(s: seq<char>, c: char)
    ensures IsSubsequence(RemoveAll(s, c), s)
    decreases |s|
  {
    if s != [] {
      var init, last := s[..|s| - 1], s[|s| - 1];
      RemoveAllIsSubsequence(init, c);
      assert s == init + [last];
      assert RemoveAll(s, c) == RemoveAll(init, c) + (if last == c then [] else [last]);
      if last == c {
        SubsequenceExtend(RemoveAll(init, c), init, last);
        assert RemoveAll(s, c) == RemoveAll(init, c);
      } else {
        SubsequenceSnoc(RemoveAll(init, c), init, last);
        assert RemoveAll(s, c) == RemoveAll(init, c) + [last];
      }
    }
  }

  lemma {:induction false} KeepAppend(u: seq<char>, v: seq<char>)
    ensures KeepPayloadChars(u + v) == KeepPayloadChars(u) + KeepPayloadChars(v)
    decreases |u|
  {
    if u == [] {
      assert u + v == v;
    } else {
      assert (u + v)[1..] == u[1..] + v;
      KeepAppend(u[1..], v);
    }
  }

  lemma StrippedAppend(u: seq<char>, v: seq<char>)
    ensures Stripped(u + v) == Stripped(u) + Stripped(v)
  {
    RemoveAllAppend(u, v, '\n');
    RemoveAllAppend(RemoveAll(u, '\n'), RemoveAll(v, '\n'), '\r');
    RemoveAllAppend(RemoveAll(RemoveAll(u, '\n'), '\r'), RemoveAll(RemoveAll(v, '\n'), '\r'), ' ');
  }

  lemma StrippedSingle(x: char)
    ensures Stripped([x]) == KeepPayloadChars([x])
  {
  }

  /** The three erase-remove passes equal the one-pass reference filter. */
  lemma {:induction false} StrippedIsOnePass(s: seq<char>)
    ensures Stripped(s) == KeepPayloadChars(s)
    decreases |s|
  {
    if s != [] {
      assert s == [s[0]] + s[1..];
      StrippedAppend([s[0]], s[1..]);
      StrippedSingle(s[0]);
      StrippedIsOnePass(s[1..]);
      KeepAppend([s[0]], s[1..]);
    }
  }

  /** No line feed, carriage return or space survives. */
  lemma {:induction false} KeepHasNoErased(s: seq<char>)
    ensures forall i :: 0 <= i < |KeepPayloadChars(s)| ==> !IsErased(KeepPayloadChars(s)[i])
    decreases |s|
  {
    if s != [] {
      KeepHasNoErased(s[1..]);
    }
  }

  /** Every kept character occurs as often as in the input; every erased one
      not at all. */
  lemma {:induction false} KeepCounts(s: seq<char>, c: char)
    ensures multiset(KeepPayloadChars(s))[c] == if IsErased(c) then 0 else multiset(s)[c]
    decreases |s|
  {
    if s != [] {
      KeepCounts(s[1..], c);
      assert s == [s[0]] + s[1..];
    }
  }

  /** Kept characters keep their relative order. */
  lemma {:induction false} KeepIsSubsequence(s: seq<char>)
    ensures IsSubsequence(KeepPayloadChars(s), s)
    decreases |s|
  {
    if s != [] {
      KeepIsSubsequence(s[1..]);
      KeepHasNoErased(s);
      if !IsErased(s[0]) {
        var k := KeepPayloadChars(s);
        assert k[0] == s[0] && k[1..] == KeepPayloadChars(s[1..]);
      } else {
        var k := KeepPayloadChars(s);
        assert k == KeepPayloadChars(s[1..]);
        assert k != [] ==> !IsErased(k[0]) && k[0] != s[0];
      }
    }
  }

  /** The filter leaves a text unchanged exactly when it holds none of the
      three characters. */
  lemma {:induction false} KeepFixpointIff(s: seq<char>)
    ensures KeepPayloadChars(s) == s <==> forall i :: 0 <= i < |s| ==> !IsErased(s[i])
    decreases |s|
  {
    if s != [] {
      KeepFixpointIff(s[1..]);
      assert forall i :: 1 <= i < |s| ==> s[i] == s[1..][i - 1];
      if IsErased(s[0]) {
        KeepLength(s[1..]);
      } else if KeepPayloadChars(s) == s {
        assert KeepPayloadChars(s[1..]) == KeepPayloadChars(s)[1..];
      }
    }
  }

  lemma {:induction false} KeepLength(s: seq<char>)
    ensures |KeepPayloadChars(s)| <= |s|
    decreases |s|
  {
    if s != [] {
      KeepLength(s[1..]);
    }
  }

  /** Stripping a second time changes nothing. */
  lemma StrippedIdempotent(s: seq<char>)
    ensures Stripped(Stripped(s)) == Stripped(s)
  {
    StrippedIsOnePass(s);
    StrippedIsOnePass(Stripped(s));
    KeepHasNoErased(s);
    KeepFixpointIff(KeepPayloadChars(s));
  }

  /** The facts of the loader's normalisation, stated on the three passes. */
  lemma StrippedFacts(s: seq<char>)
    ensures forall i :: 0 <= i < |Stripped(s)| ==> !IsErased(Stripped(s)[i])
    ensures forall c :: !IsErased(c) ==> multiset(Stripped(s))[c] == multiset(s)[c]
    ensures IsSubsequence(Stripped(s), s)
  {
    StrippedIsOnePass(s);
    KeepHasNoErased(s);
    KeepIsSubsequence(s);
    forall c | !IsErased(c) ensures multiset(Stripped(s))[c] == multiset(s)[c] {
      KeepCounts(s, c);
    }
  }

  /** One erase-remove pass on the first `n` characters of `a`: the kept
      characters are moved to the front in order and their number returned;
      the string is then `a[..k]`. */
  method RemoveInPlace(a: array<char>, n: nat, c: char) returns (k: nat)
    requires n <= a.Length
    modifies a
    ensures k <= n
    ensures a[..k] == RemoveAll(old(a[..n]), c)
    ensures a[n..] == old(a[n..])
  {
    k := 0;
    var i := 0;
    while i < n
      invariant 0 <= k <= i <= n
      invariant a[..k] == RemoveAll(old(a[..i]), c)
      invariant forall j :: i <= j < a.Length ==> a[j] == old(a[j])
    {
      assert old(a[..i + 1]) == old(a[..i]) + [old(a[i])];
      if a[i] != c {
        a[k] := a[i];
        k := k + 1;
      }
      i := i + 1;
    }
    assert old(a[..n]) == old(a[..i]);
  }

  /** The normalisation of `readHexPayloadFromFile`, applied to the text the
      file held. */
  method ReadHexPayload(text: seq<char>) returns (r: Result<seq<char>, PayloadError>)
    ensures r.Failure? <==> |Stripped(text)| % 2 != 0
    ensures r.Failure? ==> r.error == OddHexLength(|Stripped(text)|)
    ensures r.Success? ==> r.value == Stripped(text)
  {
    var hexString := new char[|text|](i requires 0 <= i < |text| => text[i]);
    var size := |text|;
    assert hexString[..size] == text;
    size := RemoveInPlace(hexString, size, '\n');
    size := RemoveInPlace(hexString, size, '\r');
    size := RemoveInPlace(hexString, size, ' ');
    if size % 2 != 0 {
      return Failure(OddHexLength(size));
    }
    return Success(hexString[..size]);
  }
}
