/**
 * `HashableInstallRequirement` and the ordered sets built from it.
 *
 * A hashable requirement compares and hashes by its `str` rendering, so a
 * set or dictionary holding such requirements keeps one per rendering.
 * A plain pip requirement keeps Python's identity semantics: a set finds it
 * only as the very same object, which a freshly built one never is.
 */
module Identity {
  import opened Wrappers
  import opened Strings
  import opened Externals
  import opened Sorting

  /** A requirement object: reqwire's hashable subclass, or a plain pip one. */
  datatype Ireq = Hashable(data: InstallRequirement) | Plain(data: InstallRequirement)

  /** `str(ireq)` */
  function Str(env: Env, r: Ireq): string
  {
    env.render(r.data)
  }

  /** `str` as a sort key, `key=lambda ireq: str(ireq)`. */
  function StrKey(env: Env): Ireq -> string
  {
    (r: Ireq) => env.render(r.data)
  }

  /** `HashableInstallRequirement.__eq__`: the renderings are equal. */
  predicate Eq(env: Env, self: Ireq, other: Ireq)
    requires self.Hashable?
  {
    Str(env, self) == Str(env, other)
  }

  /** `HashableInstallRequirement.__hash__`: the hash of the rendering. */
  function Hash(env: Env, self: Ireq): int
    requires self.Hashable?
  {
    env.strHash(Str(env, self))
  }

  /** Equal requirements hash equally, whatever the string hash is. */
  lemma EqualHashEqually(env: Env, a: Ireq, b: Ireq)
    requires a.Hashable? && b.Hashable? && Eq(env, a, b)
    ensures Hash(env, a) == Hash(env, b) && Eq(env, b, a)
  {
  }

  /**
   * A set lookup matches a stored hashable requirement exactly when the
   * hashes agree and `==` holds, which is exactly when the renderings agree.
   */
  lemma SetLookupIsRenderingEquality(env: Env, stored: Ireq, key: Ireq)
    requires stored.Hashable? && key.Hashable?
    ensures (Hash(env, stored) == Hash(env, key) && Eq(env, stored, key)) <==> Str(env, stored) == Str(env, key)
  {
  }

  /** `HashableInstallRequirement.from_line`: `-e` lines are editables, the rest go to pip's `from_line`. */
  function FromLine(env: Env, line: string): Ireq
  {
    if StartsWith(line, "-e") then Hashable(env.fromEditable(Strip(line[2..])))
    else Hashable(env.fromLine(line))
  }

  /** Two requirements built from the same line are equal. */
  lemma FromSameLineEqual(env: Env, line: string)
    ensures Eq(env, FromLine(env, line), FromLine(env, line))
    ensures Hash(env, FromLine(env, line)) == Hash(env, FromLine(env, line))
  {
  }

  /** `-e <path>` and `-e<path>` build the same editable requirement. */
  lemma EditableSpacingIrrelevant(env: Env, path: string)
    ensures FromLine(env, "-e " + path) == FromLine(env, "-e" + path)
  {
    assert ("-e " + path)[..2] == "-e" && ("-e " + path)[2..] == " " + path;
    assert ("-e" + path)[..2] == "-e" && ("-e" + path)[2..] == path;
    StripIgnoresLeadingSpace(path);
  }

  /**
   * `key in ordered_set`: some stored hashable requirement renders like the
   * hashable key. A plain key is never found.
   */
  predicate Contains(env: Env, s: seq<Ireq>, x: Ireq)
  {
    x.Hashable? && exists i :: 0 <= i < |s| && s[i].Hashable? && Str(env, s[i]) == Str(env, x)
  }

  /** `HashableInstallRequirement.from_ireq` on each of a collection of pip requirements. */
  function Hashables(xs: seq<InstallRequirement>): (r: seq<Ireq>)
    ensures |r| == |xs| && forall i :: 0 <= i < |xs| ==> r[i] == Hashable(xs[i])
  {
    if xs == [] then [] else [Hashable(xs[0])] + Hashables(xs[1..])
  }

  /** `OrderedSet.add`: appends unless already present. */
  function Add(env: Env, s: seq<Ireq>, x: Ireq): seq<Ireq>
  {
    if Contains(env, s, x) then s else s + [x]
  }

  /** `OrderedSet(xs)`: the elements added one by one, in order. */
  function OrderedFrom(env: Env, xs: seq<Ireq>): seq<Ireq>
  {
    if xs == [] then [] else Add(env, OrderedFrom(env, xs[..|xs| - 1]), xs[|xs| - 1])
  }

  /** No two hashable elements render alike. */
  ghost predicate NoDupKeys(env: Env, s: seq<Ireq>)
  {
    forall i, j :: 0 <= i < j < |s| && s[i].Hashable? && s[j].Hashable? ==> Str(env, s[i]) != Str(env, s[j])
  }

  /**
   * An ordered set keeps one element per rendering, only elements of its
   * input, and every hashable input is represented by its rendering and
   * every plain one is kept.
   */
  lemma {:induction false} OrderedFromIsSet(env: Env, xs: seq<Ireq>)
    ensures NoDupKeys(env, OrderedFrom(env, xs))
    ensures forall y :: y in OrderedFrom(env, xs) ==> y in xs
    ensures forall x :: x in xs && x.Hashable? ==> Contains(env, OrderedFrom(env, xs), x)
    ensures forall x :: x in xs && x.Plain? ==> x in OrderedFrom(env, xs)
  {
    if xs != [] {
      var init, x := xs[..|xs| - 1], xs[|xs| - 1];
      assert xs == init + [x];
      OrderedFromIsSet(env, init);
      var r' := OrderedFrom(env, init);
      var r := OrderedFrom(env, xs);
      assert r == Add(env, r', x);
      forall y | y in xs && y.Hashable? ensures Contains(env, r, y) {
        if y in init {
          var i :| 0 <= i < |r'| && r'[i].Hashable? && Str(env, r'[i]) == Str(env, y);
          assert r[i] == r'[i];
        } else if !Contains(env, r', x) {
          assert r[|r| - 1] == x;
        }
      }
    }
  }

  /** Built from input sorted by rendering, an ordered set of hashable requirements ascends strictly. */
  lemma {:induction false} OrderedFromStrictlySorted(env: Env, xs: seq<Ireq>)
    requires SortedBy(xs, StrKey(env))
    requires forall i :: 0 <= i < |xs| ==> xs[i].Hashable?
    ensures StrictlySortedBy(OrderedFrom(env, xs), StrKey(env))
  {
    if xs != [] {
      var init, x := xs[..|xs| - 1], xs[|xs| - 1];
      assert xs == init + [x];
      assert SortedBy(init, StrKey(env)) by {
        forall i, j | 0 <= i < j < |init| ensures !Less(StrKey(env)(init[j]), StrKey(env)(init[i])) {
          assert init[i] == xs[i] && init[j] == xs[j];
        }
      }
      OrderedFromStrictlySorted(env, init);
      OrderedFromIsSet(env, init);
      var r' := OrderedFrom(env, init);
      if !Contains(env, r', x) {
        forall i | 0 <= i < |r'| ensures Less(StrKey(env)(r'[i]), StrKey(env)(x)) {
          assert r'[i] in init;
          var k :| 0 <= k < |init| && init[k] == r'[i];
          assert xs[k] == r'[i];
          assert !Less(StrKey(env)(xs[|xs| - 1]), StrKey(env)(xs[k]));
          LessTotal(Str(env, r'[i]), Str(env, x));
        }
        StrictlySortedAppend(r', x, StrKey(env));
        assert OrderedFrom(env, xs) == r' + [x];
      } else {
        assert OrderedFrom(env, xs) == r';
      }
    }
  }

  /** `ordered_set -= other`: drops every element whose rendering `other` holds, keeping the order. */
  function Subtract(env: Env, s: seq<Ireq>, t: seq<Ireq>): seq<Ireq>
  {
    if s == [] then []
    else (if Contains(env, t, s[0]) then [] else [s[0]]) + Subtract(env, s[1..], t)
  }

  /** The difference keeps exactly the elements of `s` that `t` does not hold. */
  lemma {:induction false} SubtractMembers(env: Env, s: seq<Ireq>, t: seq<Ireq>)
    ensures forall y :: y in Subtract(env, s, t) <==> y in s && !Contains(env, t, y)
  {
    if s != [] {
      SubtractMembers(env, s[1..], t);
      assert s == [s[0]] + s[1..];
    }
  }

  /** Removing elements leaves a strictly ascending sequence strictly ascending. */
  lemma {:induction false} SubtractKeepsStrictOrder(env: Env, s: seq<Ireq>, t: seq<Ireq>)
    requires StrictlySortedBy(s, StrKey(env))
    ensures StrictlySortedBy(Subtract(env, s, t), StrKey(env))
  {
    if s != [] {
      var tail := s[1..];
      assert StrictlySortedBy(tail, StrKey(env)) by {
        forall i, j | 0 <= i < j < |tail| ensures Less(StrKey(env)(tail[i]), StrKey(env)(tail[j])) {
          assert tail[i] == s[i + 1] && tail[j] == s[j + 1];
        }
      }
      SubtractKeepsStrictOrder(env, tail, t);
      SubtractMembers(env, tail, t);
      var rest := Subtract(env, tail, t);
      forall j | 0 <= j < |rest| ensures Less(Str(env, s[0]), Str(env, rest[j])) {
        assert rest[j] in tail;
        var k :| 0 <= k < |tail| && tail[k] == rest[j];
        assert s[k + 1] == rest[j];
      }
    }
  }

  /** `OrderedSet(urls)` on strings: first occurrences, in order. */
  function Dedup(xs: seq<string>): seq<string>
  {
    if xs == [] then []
    else
      var d := Dedup(xs[..|xs| - 1]);
      if xs[|xs| - 1] in d then d else d + [xs[|xs| - 1]]
  }

  /** The de-duplicated list holds each input string exactly once and nothing else. */
  lemma {:induction false} DedupIsSet(xs: seq<string>)
    ensures forall u :: u in Dedup(xs) <==> u in xs
    ensures forall i, j :: 0 <= i < j < |Dedup(xs)| ==> Dedup(xs)[i] != Dedup(xs)[j]
  {
    if xs != [] {
      DedupIsSet(xs[..|xs| - 1]);
      assert xs == xs[..|xs| - 1] + [xs[|xs| - 1]];
    }
  }

  /** De-duplicating twice changes nothing. */
  lemma {:induction false} DedupIdempotent(xs: seq<string>)
    ensures Dedup(Dedup(xs)) == Dedup(xs)
  {
    DedupIsSet(xs);
    DedupOfDistinct(Dedup(xs));
  }

  lemma {:induction false} DedupOfDistinct(xs: seq<string>)
    requires forall i, j :: 0 <= i < j < |xs| ==> xs[i] != xs[j]
    ensures Dedup(xs) == xs
  {
    if xs != [] {
      var init := xs[..|xs| - 1];
      DedupOfDistinct(init);
      assert xs[|xs| - 1] !in init by {
        forall k | 0 <= k < |init| ensures init[k] != xs[|xs| - 1] {
          assert init[k] == xs[k];
        }
      }
      assert xs == init + [xs[|xs| - 1]];
    }
  }
}
