/** The local file name of a downloaded image: `getNewFileName` builds it from
    the image's metadata, then the nine characters of the regular expression
    `[\\/:*?"<>|]`, which Windows refuses in a file name, are removed. */
module FileName {
  import opened GoStrings
  import opened Api

  /** The characters of the class `[\\/:*?"<>|]`. */
  predicate IsForbidden(c: char) {
    c == '\\' || c == '/' || c == ':' || c == '*' || c == '?'
    || c == '"' || c == '<' || c == '>' || c == '|'
  }

  /** No character of `s` is one of the nine of `[\\/:*?"<>|]`. */
  predicate Legal(s: string) {
    forall k :: 0 <= k < |s| ==> !IsForbidden(s[k])
  }

  /** The regular-expression replacement of every forbidden character by "":
      only deletes, and what it leaves is legal. */
  function StripForbidden(s: string): (r: string)
    ensures |r| <= |s|
    ensures Legal(r)
  {
    if s == [] then []
    else (if IsForbidden(s[0]) then [] else [s[0]]) + StripForbidden(s[1..])
  }

  /** `idx` lists strictly increasing positions of `s` at which the characters
      of `r` are found, one for one: `r` is an order-preserving subsequence of `s`. */
  ghost predicate Embedding(r: string, s: string, idx: seq<nat>) {
    && |idx| == |r|
    && (forall k :: 0 <= k < |idx| ==> idx[k] < |s| && r[k] == s[idx[k]])
    && (forall k, l :: 0 <= k < l < |idx| ==> idx[k] < idx[l])
  }

  /** Every position moved one further along. */
  function Shift(idx: seq<nat>): (r: seq<nat>)
    ensures |r| == |idx|
    ensures forall k :: 0 <= k < |idx| ==> r[k] == idx[k] + 1
  {
    seq(|idx|, k requires 0 <= k < |idx| => idx[k] + 1)
  }

  /** Every position of `s` holding an allowed character is listed in `idx`. */
  ghost predicate KeepsAllowed(s: string, idx: seq<nat>) {
    forall j :: 0 <= j < |s| && !IsForbidden(s[j]) ==> j in idx
  }

  /** Positions found in `s[1..]` are found one further along in `s`. */
  lemma ShiftEmbedding(r: string, s: string, idx: seq<nat>)
    requires s != [] && Embedding(r, s[1..], idx)
    ensures Embedding(r, s, Shift(idx))
  {
    var shifted := Shift(idx);
    forall k | 0 <= k < |shifted| ensures shifted[k] < |s| && r[k] == s[shifted[k]] {
      assert r[k] == s[1..][idx[k]];
    }
  }

  /** The allowed positions of `s[1..]`, moved up by one, are the allowed
      positions of `s` after the first. */
  lemma ShiftKeepsAllowed(s: string, idx: seq<nat>)
    requires s != [] && KeepsAllowed(s[1..], idx)
    ensures forall j :: 1 <= j < |s| && !IsForbidden(s[j]) ==> j in Shift(idx)
  {
    var shifted := Shift(idx);
    forall j | 1 <= j < |s| && !IsForbidden(s[j]) ensures j in shifted {
      assert s[1..][j - 1] == s[j];
      var m :| 0 <= m < |idx| && idx[m] == j - 1;
      assert shifted[m] == j;
    }
  }

  /** Dropping the forbidden first character of `s`. */
  lemma DropFirst(r: string, s: string, idx: seq<nat>)
    requires s != [] && IsForbidden(s[0])
    requires Embedding(r, s[1..], idx) && KeepsAllowed(s[1..], idx)
    ensures Embedding(r, s, Shift(idx)) && KeepsAllowed(s, Shift(idx))
  {
    ShiftEmbedding(r, s, idx);
    ShiftKeepsAllowed(s, idx);
  }

  /** Keeping the allowed first character of `s`, found at position 0. */
  lemma KeepFirst(r: string, s: string, idx: seq<nat>)
    requires s != [] && !IsForbidden(s[0])
    requires Embedding(r, s[1..], idx) && KeepsAllowed(s[1..], idx)
    ensures Embedding([s[0]] + r, s, [0] + Shift(idx)) && KeepsAllowed(s, [0] + Shift(idx))
  {
    var shifted := Shift(idx);
    ShiftEmbedding(r, s, idx);
    ShiftKeepsAllowed(s, idx);
    var all := [0] + shifted;
    assert Embedding([s[0]] + r, s, all) by {
      forall k | 0 <= k < |all| ensures all[k] < |s| && ([s[0]] + r)[k] == s[all[k]] {
        if k > 0 { assert all[k] == shifted[k - 1]; }
      }
      forall k, l | 0 <= k < l < |all| ensures all[k] < all[l] {
        assert all[l] == shifted[l - 1];
        if k > 0 { assert all[k] == shifted[k - 1]; }
      }
    }
    assert KeepsAllowed(s, all) by {
      forall j | 1 <= j < |s| && !IsForbidden(s[j]) ensures j in all {
        var m :| 0 <= m < |shifted| && shifted[m] == j;
        assert all[m + 1] == j;
      }
    }
  }

  /** The stripped string is the input with exactly its forbidden characters
      deleted: an order-preserving subsequence of the input that keeps every
      position holding an allowed character. */
  lemma {:induction false} StripForbiddenKeepsAllowed(s: string) returns (idx: seq<nat>)
    ensures Embedding(StripForbidden(s), s, idx)
    ensures KeepsAllowed(s, idx)
  {
    if s == [] {
      idx := [];
    } else {
      var rest := StripForbiddenKeepsAllowed(s[1..]);
      var tail := StripForbidden(s[1..]);
      if IsForbidden(s[0]) {
        DropFirst(tail, s, rest);
        idx := Shift(rest);
      } else {
        KeepFirst(tail, s, rest);
        idx := [0] + Shift(rest);
      }
    }
  }

  /** A string with no forbidden character is left as it is. */
  lemma {:induction false} StripForbiddenOfLegal(s: string)
    requires Legal(s)
    ensures StripForbidden(s) == s
  {
    if s != [] {
      StripForbiddenOfLegal(s[1..]);
      assert s == [s[0]] + s[1..];
    }
  }

  /** Stripping twice is the same as stripping once. */
  lemma StripForbiddenIdempotent(s: string)
    ensures StripForbidden(StripForbidden(s)) == StripForbidden(s)
  {
    StripForbiddenOfLegal(StripForbidden(s));
  }

  /** Stripping a concatenation strips each part on its own. */
  lemma {:induction false} StripForbiddenAppend(a: string, b: string)
    ensures StripForbidden(a + b) == StripForbidden(a) + StripForbidden(b)
  {
    if a != [] {
      assert (a + b)[1..] == a[1..] + b;
      StripForbiddenAppend(a[1..], b);
    } else {
      assert a + b == b;
    }
  }

  /** The two `fmt.Sprintf` branches of `getNewFileName`: with a non-empty
      label the name is the label with its spaces turned into underscores, an
      underscore, the date, a dot and the type; with an empty label it is the
      date, a dot and the type. */
  function FormatName(rawName: string, createdAt: string, kind: string): (name: string)
    ensures var n := if rawName == [] then 0 else |rawName| + 1;
            && |name| == n + |createdAt| + 1 + |kind|
            && name[n..n + |createdAt|] == createdAt
            && name[n + |createdAt|] == '.'
            && name[n + |createdAt| + 1..] == kind
    ensures rawName != [] ==> name[..|rawName|] == ReplaceAll(rawName, ' ', '_') && name[|rawName|] == '_'
  {
    var dated := createdAt + "." + kind;
    assert dated[..|createdAt|] == createdAt && dated[|createdAt| + 1..] == kind;
    if rawName != "" then
      var name := ReplaceAll(rawName, ' ', '_');
      var full := name + "_" + dated;
      assert full[..|rawName|] == name && full[|rawName| + 1..] == dated;
      full
    else
      dated
  }

  /** `getNewFileName`. The timestamp loses its last five characters (Go
      panics when it has fewer, hence the precondition) and the application
      label is trimmed of white space; the name is the date, a dot and the
      type, preceded, when the trimmed label is not empty, by that label with
      its spaces turned into underscores and one more underscore. */
  function GetNewFileName(image: ImageApiResponse): (name: string)
    requires |image.createdAt| >= 5
    ensures var date := image.createdAt[..|image.createdAt| - 5];
            var appLabel := TrimSpace(image.app);
            var n := if appLabel == [] then 0 else |appLabel| + 1;
            && |name| == n + |date| + 1 + |image.kind|
            && name[n..n + |date|] == date
            && name[n + |date|] == '.'
            && name[n + |date| + 1..] == image.kind
            && (appLabel != [] ==> name[..|appLabel|] == ReplaceAll(appLabel, ' ', '_') && name[|appLabel|] == '_')
  {
    FormatName(TrimSpace(image.app), image.createdAt[..|image.createdAt| - 5], image.kind)
  }

  /** With a non-empty trimmed label the name is that label with its spaces
      turned into underscores, `_`, then the date, a dot and the type. */
  lemma LabelledName(image: ImageApiResponse)
    requires |image.createdAt| >= 5
    requires TrimSpace(image.app) != []
    ensures GetNewFileName(image) ==
              ReplaceAll(TrimSpace(image.app), ' ', '_') + "_"
              + (image.createdAt[..|image.createdAt| - 5] + "." + image.kind)
  {
  }

  /** The label part of a labelled name is as long as the trimmed label, holds
      no space, and agrees with the label wherever the label has no space. */
  lemma LabelPartHasNoSpace(image: ImageApiResponse)
    requires |image.createdAt| >= 5
    requires TrimSpace(image.app) != []
    ensures var appLabel, name := TrimSpace(image.app), GetNewFileName(image);
            && |appLabel| < |name| && name[|appLabel|] == '_'
            && (forall k :: 0 <= k < |appLabel| ==> name[k] != ' ')
            && (forall k :: 0 <= k < |appLabel| && appLabel[k] != ' ' ==> name[k] == appLabel[k])
  {
    var appLabel, name := TrimSpace(image.app), GetNewFileName(image);
    PrefixAgrees(name, ReplaceAll(appLabel, ' ', '_'));
  }

  lemma PrefixAgrees(s: string, p: string)
    requires |p| <= |s| && s[..|p|] == p
    ensures forall k :: 0 <= k < |p| ==> s[k] == p[k]
  {
    forall k | 0 <= k < |p| ensures s[k] == p[k] {
      assert s[k] == s[..|p|][k];
    }
  }

  /** The name written to disk: `getNewFileName` followed by the strip. */
  function SanitizedFileName(image: ImageApiResponse): (name: string)
    requires |image.createdAt| >= 5
    ensures Legal(name)
    ensures |name| <= |GetNewFileName(image)|
  {
    StripForbidden(GetNewFileName(image))
  }

  /** The name the run saves an image under. The run asks for it only once
      the timestamp is known to be long enough; for a shorter timestamp,
      where `getNewFileName` would panic, it is "". */
  function FileNameOf(image: ImageApiResponse): (name: string)
    ensures Legal(name)
    ensures |image.createdAt| >= 5 ==> |name| <= |GetNewFileName(image)|
  {
    if |image.createdAt| >= 5 then SanitizedFileName(image) else ""
  }

  /** A label of white space only is no label at all: the name is the date,
      a dot and the type, as for an image without a label. */
  lemma BlankLabelIsNoLabel(image: ImageApiResponse)
    requires |image.createdAt| >= 5
    requires AllSpace(image.app)
    ensures GetNewFileName(image) == GetNewFileName(image.(app := ""))
    ensures GetNewFileName(image) == image.createdAt[..|image.createdAt| - 5] + "." + image.kind
  {
    var date := image.createdAt[..|image.createdAt| - 5];
    assert TrimSpace(image.app) == [] && TrimSpace("") == [];
    assert GetNewFileName(image) == FormatName([], date, image.kind);
    assert GetNewFileName(image.(app := "")) == FormatName([], date, image.kind);
  }

  /** White space added around the label does not change the name. */
  lemma LabelPaddingIgnored(image: ImageApiResponse, pre: string, post: string)
    requires |image.createdAt| >= 5
    requires AllSpace(pre) && AllSpace(post)
    ensures GetNewFileName(image.(app := pre + image.app + post)) == GetNewFileName(image)
  {
    TrimSpaceOfPaddedAny(pre, image.app, post);
  }

  /** The label can be read back from a labelled name by turning underscores
      into spaces again, provided the trimmed label had no underscore. */
  lemma LabelRecoverable(image: ImageApiResponse)
    requires |image.createdAt| >= 5
    requires TrimSpace(image.app) != []
    requires '_' !in TrimSpace(image.app)
    ensures |TrimSpace(image.app)| < |GetNewFileName(image)|
    ensures ReplaceAll(GetNewFileName(image)[..|TrimSpace(image.app)|], '_', ' ') == TrimSpace(image.app)
  {
    ReplaceAllRoundTrip(TrimSpace(image.app), ' ', '_');
  }

  /** The name only depends on the timestamp without its last five
      characters: two images that differ only there get the same name. */
  lemma NameIgnoresTimestampSuffix(a: ImageApiResponse, b: ImageApiResponse)
    requires |a.createdAt| >= 5 && |b.createdAt| >= 5
    requires a.app == b.app && a.kind == b.kind
    requires a.createdAt[..|a.createdAt| - 5] == b.createdAt[..|b.createdAt| - 5]
    ensures GetNewFileName(a) == GetNewFileName(b)
  {
  }

  /** Stripping a one-character separator that is not forbidden keeps it. */
  /** The strip also removes the colon of a time of day, so the date part
      `2023-05-01T12:00:00` of a timestamp is saved as `2023-05-01T120000`. */
  lemma StripsTimeColon()
    ensures StripForbidden("12:00") == "1200"
  {
    var hour, colon, minute := "12", ":", "00";
    assert "12:00" == hour + (colon + minute);
    StripForbiddenOfLegal(hour);
    StripForbiddenOfLegal(minute);
    assert StripForbidden(colon) == [] by { assert colon[1..] == []; }
    StripForbiddenAppend(colon, minute);
    StripForbiddenAppend(hour, colon + minute);
    assert hour + ([] + minute) == "1200";
  }

  lemma StripForbiddenSeparator(c: char)
    requires !IsForbidden(c)
    ensures StripForbidden([c]) == [c]
  {
    assert [c][1..] == [];
  }

  /** Stripping the built name strips each of its components: the label,
      the date and the type lose their forbidden characters, the separators
      `_` and `.` stay. */
  lemma SanitizedComponents(image: ImageApiResponse)
    requires |image.createdAt| >= 5
    ensures var dated := StripForbidden(image.createdAt[..|image.createdAt| - 5]) + "." + StripForbidden(image.kind);
            var appLabel := TrimSpace(image.app);
            SanitizedFileName(image) ==
              if appLabel == [] then dated
              else StripForbidden(ReplaceAll(appLabel, ' ', '_')) + "_" + dated
  {
    var date := image.createdAt[..|image.createdAt| - 5];
    var dated := date + "." + image.kind;
    var strippedDated := StripForbidden(date) + "." + StripForbidden(image.kind);
    assert StripForbidden(dated) == strippedDated by {
      StripForbiddenAppend(date + ".", image.kind);
      StripForbiddenAppend(date, ".");
      StripForbiddenSeparator('.');
    }
    var appLabel := TrimSpace(image.app);
    if appLabel != [] {
      var underscored := ReplaceAll(appLabel, ' ', '_');
      assert GetNewFileName(image) == underscored + "_" + dated;
      StripForbiddenAppend(underscored + "_", dated);
      StripForbiddenAppend(underscored, "_");
      StripForbiddenSeparator('_');
    }
  }
}
