/** Bans on parts of host names: the last labels of a name, or the first one. */
module HostBans {
  import opened Texts
  import opened Wrappers

  function Dots(s: string): nat {
    if s == "" then 0 else (if s[0] == '.' then 1 else 0) + Dots(s[1..])
  }

  lemma {:induction false} DotsConcat(a: string, b: string)
    ensures Dots(a + b) == Dots(a) + Dots(b)
  {
    if a == "" {
      assert a + b == b;
    } else {
      assert (a + b)[1..] == a[1..] + b;
      DotsConcat(a[1..], b);
    }
  }

  lemma {:induction false} NoDots(s: string)
    requires forall k :: 0 <= k < |s| ==> s[k] != '.'
    ensures Dots(s) == 0
  {
    if s != "" {
      NoDots(s[1..]);
    }
  }

  // ---- labels ----

  /** The labels of a name, which are what its dots separate. */
  function Labels(s: string): (r: seq<string>)
    ensures |r| == Dots(s) + 1
  {
    if s == "" then [""]
    else
      var r := Labels(s[1..]);
      if s[0] == '.' then [""] + r else [[s[0]] + r[0]] + r[1..]
  }

  /** Labels joined again, each with a dot in front. */
  function Dotted(labels: seq<string>): string {
    if labels == [] then "" else "." + (labels[0] + Dotted(labels[1..]))
  }

  lemma {:induction false} LabelsJoin(s: string)
    ensures Dotted(Labels(s)) == "." + s
  {
    if s != "" {
      var r := Labels(s[1..]);
      LabelsJoin(s[1..]);
      assert s == [s[0]] + s[1..];
      if s[0] == '.' {
        assert ([""] + r)[1..] == r && "." + "" == ".";
      } else {
        FirstGrows(s[0], r, s[1..]);
      }
    }
  }

  lemma FirstGrows(c: char, r: seq<string>, t: string)
    requires r != [] && Dotted(r) == "." + t
    ensures Dotted([[c] + r[0]] + r[1..]) == "." + ([c] + t)
  {
    var rest := Dotted(r[1..]);
    assert ([[c] + r[0]] + r[1..])[1..] == r[1..];
    Behind1(t, r[0] + rest);
    Grouped([c], r[0], rest);
  }

  lemma Behind1(a: string, b: string)
    requires "." + a == "." + b
    ensures a == b
  {
    assert ("." + a)[1..] == a && ("." + b)[1..] == b;
  }

  predicate DotFree(labels: seq<string>) {
    forall k :: 0 <= k < |labels| ==> '.' !in labels[k]
  }

  lemma {:induction false} LabelsAreDotFree(s: string)
    ensures DotFree(Labels(s))
  {
    if s != "" {
      LabelsAreDotFree(s[1..]);
    }
  }

  lemma {:induction false} FirstLabel(name: string, rest: string)
    requires '.' !in name && (rest == "" || rest[0] == '.')
    ensures Labels(name + rest) == if rest == "" then [name] else [name] + Labels(rest[1..])
  {
    if name == "" {
      assert name + rest == rest;
    } else {
      assert (name + rest)[1..] == name[1..] + rest && name == [name[0]] + name[1..];
      FirstLabel(name[1..], rest);
    }
  }

  /** Dot-free labels are determined by what they join to. */
  lemma {:induction false} JoinIsInjective(labels: seq<string>)
    requires labels != [] && DotFree(labels)
    ensures Dotted(labels) != "" && Labels(Dotted(labels)[1..]) == labels
  {
    var rest := Dotted(labels[1..]);
    assert Dotted(labels)[1..] == labels[0] + rest;
    if |labels| == 1 {
      assert rest == "" && labels == [labels[0]];
    } else {
      JoinIsInjective(labels[1..]);
      assert rest[0] == '.';
      assert labels == [labels[0]] + labels[1..];
    }
    FirstLabel(labels[0], rest);
  }

  // ---- substrings of a host name ----

  function LastLabels(host: string, k: nat): seq<string>
    requires k <= |Labels(host)|
  {
    Labels(host)[|Labels(host)| - k..]
  }

  lemma ShiftedSuffix(host: string, pos: nat)
    requires 1 <= pos <= |host| && ("." + host)[pos] == '.'
    ensures ("." + host)[pos..] == ("." + host[1..])[pos - 1..] && ("." + host[1..])[pos - 1] == '.'
  {
    assert ("." + host)[pos] == host[pos - 1];
  }

  /** Unless the suffix starts at the very first character, the first label has no part in it. */
  lemma DotsLeft(host: string, pos: nat)
    requires 1 <= pos <= |host| && ("." + host)[pos] == '.' && host[0] != '.'
    ensures Dots(("." + host)[pos..]) < |Labels(host[1..])|
  {
    var rest, x := host[1..], ("." + host)[pos..];
    assert ("." + host)[pos] == host[pos - 1];
    assert x == rest[pos - 2..];
    DotsConcat(rest[..pos - 2], x);
    assert rest == rest[..pos - 2] + x;
  }

  /** A part of "." + host from one of its dots on is the join of its last labels. */
  lemma {:induction false} SuffixIsLabels(host: string, pos: nat)
    requires pos <= |host| && ("." + host)[pos] == '.'
    ensures var x := ("." + host)[pos..];
            Dots(x) <= |Labels(host)| && x == Dotted(LastLabels(host, Dots(x)))
    decreases |host|
  {
    if pos == 0 {
      assert ("." + host)[0..] == "." + host && ("." + host)[1..] == host;
      LabelsJoin(host);
    } else {
      var k := Dots(("." + host)[pos..]);
      ShiftedSuffix(host, pos);
      SuffixIsLabels(host[1..], pos - 1);
      if host[0] != '.' {
        DotsLeft(host, pos);
      }
      assert LastLabels(host, k) == LastLabels(host[1..], k);
    }
  }

  function Behind(s: string): string {
    if s == "" then "" else s[1..]
  }

  /** The wanted part of a host name. For a positive level it exists exactly if there are enough
      labels, and is made of the last ones; for a level of -k it exists exactly if there are
      k - 1 dots behind the first character, and runs up to the next one or the end; level 0
      changes nothing. */
  method GetHostSubstring(hostname: string, was: string, level: int) returns (ok: bool, result: string)
    ensures level > 0 ==> (ok <==> level <= |Labels(hostname)|)
    ensures level > 0 && ok ==> result == Dotted(LastLabels(hostname, level))
    ensures level < 0 ==> (ok <==> -level - 1 <= Dots(Behind(hostname)))
    ensures level < 0 && ok ==> result <= hostname && Dots(Behind(result)) == -level - 1
    ensures level < 0 && ok ==> result == hostname || (result != "" && hostname[|result|] == '.')
    ensures level == 0 ==> ok && result == was
    ensures !ok ==> result == was
  {
    result := was;
    if level > 0 {
      var tmp := "." + hostname;
      assert tmp[1..] == hostname;
      // The position starts behind the text, where the source has the largest one.
      var pos := |tmp|;
      for i := 0 to level
        invariant 0 <= pos <= |tmp| && Dots(tmp[pos..]) == i && (if i == 0 then pos == |tmp| else pos < |tmp| && tmp[pos] == '.')
      {
        if pos == 0 {
          assert tmp[0..] == tmp;
          return false, was;
        }
        pos := OneLabelMore(tmp, pos);
      }
      SuffixIsLabels(hostname, pos);
      return true, tmp[pos..];
    } else if level < 0 {
      var pos := 0;
      for i := 0 to -level
        invariant UpToDot(hostname, i, pos)
      {
        if pos == -1 {
          return false, was;
        }
        OneDotMore(hostname, i, pos);
        pos := Find(hostname, ".", pos + 1);
      }
      DotAhead(hostname, -level, pos);
      result := if pos == -1 then hostname else hostname[..pos];
    }
    return true, result;
  }

  /** The position of dot i, not counting one in front: 0 for none yet, -1 if there are fewer. */
  ghost predicate UpToDot(host: string, i: nat, pos: int) {
    if i == 0 then pos == 0
    else if pos == -1 then Dots(Behind(host)) == i - 1
    else 1 <= pos < |host| && host[pos] == '.' && Dots(host[1..pos]) == i - 1
  }

  lemma OneDotMore(host: string, i: nat, pos: int)
    requires UpToDot(host, i, pos) && pos != -1
    ensures UpToDot(host, i + 1, Find(host, ".", pos + 1))
  {
    hide Find, Dots;
    var next := Find(host, ".", pos + 1);
    FindDotFrom(host, pos + 1);
    var end := if next == -1 then |host| else next;
    DotsSoFar(host, i, pos, end);
    if next == -1 && host != "" {
      assert host[1..end] == Behind(host);
    }
  }

  lemma DotsSoFar(host: string, i: nat, pos: int, end: nat)
    requires UpToDot(host, i, pos) && pos != -1 && end <= |host|
    requires forall k :: pos + 1 <= k < end ==> host[k] != '.'
    ensures pos < end ==> Dots(host[1..end]) == i
    ensures host == "" ==> Dots(Behind(host)) == i
  {
    if pos < end {
      var gap := host[pos + 1..end];
      NoDots(gap);
      if pos > 0 {
        assert host[1..end] == host[1..pos] + ("." + gap) && ("." + gap)[1..] == gap;
        DotsConcat(host[1..pos], "." + gap);
      }
    }
  }

  lemma DotAhead(host: string, i: nat, pos: int)
    requires UpToDot(host, i, pos) && i > 0
    ensures i - 1 <= Dots(Behind(host))
    ensures pos != -1 ==> Behind(host[..pos]) == host[1..pos]
  {
    if pos != -1 {
      DotsConcat(host[1..pos], host[pos..]);
      assert Behind(host) == host[1..pos] + host[pos..];
    }
  }

  method OneLabelMore(tmp: string, pos: nat) returns (next: nat)
    requires 0 < pos <= |tmp| && tmp[0] == '.'
    ensures next < pos && tmp[next] == '.' && Dots(tmp[next..]) == Dots(tmp[pos..]) + 1
  {
    next := FindLast(tmp, '.', pos - 1);
    var mid := tmp[next + 1..pos];
    NoDots(mid);
    assert tmp[next..] == "." + (mid + tmp[pos..]);
    DotsConcat(mid, tmp[pos..]);
    assert ("." + (mid + tmp[pos..]))[1..] == mid + tmp[pos..];
  }

  lemma {:induction false} FindDotFrom(s: string, p: nat)
    ensures var i := Find(s, ".", p);
            && (i != -1 ==> s[i] == '.')
            && forall k :: p <= k < |s| && (i == -1 || k < i) ==> s[k] != '.'
    decreases |s| - p
  {
    if p + 1 <= |s| {
      assert s[p..p + 1] == [s[p]];
      if s[p] != '.' {
        FindDotFrom(s, p + 1);
      }
    }
  }

  // ---- bans ----

  /** The key under which a ban on the last k labels of a host is stored, and by which a host is
      looked up. */
  ghost function Key(host: string, k: nat): Option<string> {
    if k <= |Labels(host)| then Some(Dotted(LastLabels(host, k))) else None
  }

  /** A host ban of level k on one host applies to another exactly if both have k labels and the
      last k agree. */
  lemma BanMatches(banned: string, host: string, k: nat)
    requires k > 0
    ensures Key(banned, k).Some? && Key(banned, k) == Key(host, k)
            <==> k <= |Labels(banned)| && k <= |Labels(host)| && LastLabels(banned, k) == LastLabels(host, k)
  {
    LabelsAreDotFree(banned);
    LabelsAreDotFree(host);
    if k <= |Labels(banned)| && k <= |Labels(host)| {
      JoinIsInjective(LastLabels(banned, k));
      JoinIsInjective(LastLabels(host, k));
    }
  }

  /** A ban as it is added and a host as it is looked up: both through the same substring. */
  method HostBanApplies(banned: string, host: string, level: int) returns (stored: bool, applies: bool)
    requires 1 <= level <= 3
    ensures stored <==> level <= |Labels(banned)|
    ensures applies <==> stored && level <= |Labels(host)| && LastLabels(banned, level) == LastLabels(host, level)
  {
    var key, wanted, found;
    stored, key := GetHostSubstring(banned, "", level);
    if !stored {
      return false, false;
    }
    found, wanted := GetHostSubstring(host, "", level);
    applies := found && wanted == key;
    BanMatches(banned, host, level);
  }
}
