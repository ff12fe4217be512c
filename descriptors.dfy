/**
 * The descriptor builder: one page of raw `files.list` entries becomes the list
 * of work items (filename, folder, download link, file id) for the processor.
 */
module Descriptors {
  import opened Wrappers
  import opened Directory

  /** A raw file entry as the service lists it; an absent download link is the empty string. */
  datatype RawFile = RawFile(
    timestamp: int,
    user: string,
    name: string,
    channels: seq<string>,
    permalink: string,
    id: string)

  /**
   * The normalised unit of work handed to the processor. The folder is the raw
   * lookup of the first channel: `None` when that channel is not in the
   * directory (the JavaScript value `undefined`).
   */
  datatype Descriptor = Descriptor(filename: string, folder: Option<string>, permalink: string, id: string)

  /**
   * What the builder reads besides the page: both directories and the date
   * formatter (`new Date(ts * 1000).toISOString().slice(0, -5)`), which stays uninterpreted.
   */
  datatype Context = Context(users: Dir, channels: Dir, iso: int -> string)

  // ---------------------------------------------------------------- sanitiser

  /** The characters the filename rule replaces: `/`, `\` and `:`. */
  predicate Unsafe(c: char)
  {
    c == '/' || c == '\\' || c == ':'
  }

  function SafeChar(c: char): (d: char)
    ensures !Unsafe(d)
  {
    if Unsafe(c) then '_' else c
  }

  /** `.replace(/[\/\\:]/g, '_')`: every unsafe character becomes an underscore. */
  function Sanitize(s: string): string
  {
    if s == [] then [] else [SafeChar(s[0])] + Sanitize(s[1..])
  }

  /** Sanitising keeps the length and works character by character. */
  lemma {:induction false} SanitizeAt(s: string)
    ensures |Sanitize(s)| == |s|
    ensures forall i | 0 <= i < |s| :: Sanitize(s)[i] == SafeChar(s[i])
  {
    if s != [] {
      SanitizeAt(s[1..]);
      assert forall i | 1 <= i < |s| :: s[1..][i - 1] == s[i];
    }
  }

  /** A sanitised string holds no `/`, `\` or `:`, and every other character is kept where it was. */
  lemma {:induction false} SanitizeIsSafe(s: string)
    ensures |Sanitize(s)| == |s|
    ensures forall i | 0 <= i < |s| :: !Unsafe(Sanitize(s)[i])
    ensures forall i | 0 <= i < |s| && !Unsafe(s[i]) :: Sanitize(s)[i] == s[i]
  {
    SanitizeAt(s);
  }

  /** A string is left alone by the sanitiser exactly when it has no unsafe character. */
  lemma {:induction false} SanitizeFixpoint(s: string)
    ensures Sanitize(s) == s <==> forall i | 0 <= i < |s| :: !Unsafe(s[i])
  {
    SanitizeAt(s);
    if forall i | 0 <= i < |s| :: !Unsafe(s[i]) {
      assert forall i | 0 <= i < |s| :: Sanitize(s)[i] == s[i];
    }
  }

  /** Sanitising twice gives the same string as sanitising once. */
  lemma {:induction false} SanitizeIdempotent(s: string)
    ensures Sanitize(Sanitize(s)) == Sanitize(s)
  {
    SanitizeIsSafe(s);
    SanitizeFixpoint(Sanitize(s));
  }

  // --------------------------------------------------------------- one entry

  /** `file.channels[0]` is truthy: there is a first channel and its id is not the empty string. */
  predicate HasFirstChannel(f: RawFile)
  {
    |f.channels| > 0 && f.channels[0] != ""
  }

  /** The unsanitised filename `<iso> - <user name> - <original name>`. */
  function RawFileName(f: RawFile, ctx: Context): string
  {
    ctx.iso(f.timestamp) + " - " + Lookup(ctx.users, f.user) + " - " + f.name
  }

  /**
   * The descriptor the `.map` step builds for an entry that has a first channel:
   * the filename is `<iso> - <user name> - <original name>` with exactly the
   * unsafe characters replaced, the folder is the raw channel lookup.
   */
  function Describe(f: RawFile, ctx: Context): (d: Descriptor)
    requires HasFirstChannel(f)
    ensures d.folder == Get(ctx.channels, f.channels[0])
    ensures d.permalink == f.permalink && d.id == f.id
    ensures |d.filename| == |RawFileName(f, ctx)|
    ensures forall i | 0 <= i < |d.filename| :: d.filename[i] == SafeChar(RawFileName(f, ctx)[i])
    ensures forall i | 0 <= i < |d.filename| :: !Unsafe(d.filename[i])
  {
    SanitizeAt(RawFileName(f, ctx));
    Descriptor(Sanitize(RawFileName(f, ctx)), Get(ctx.channels, f.channels[0]), f.permalink, f.id)
  }

  // ------------------------------------------------------ the three stages

  /** `.filter(file => file.channels[0])` */
  function WithChannel(files: seq<RawFile>): (r: seq<RawFile>)
    ensures forall k | 0 <= k < |r| :: HasFirstChannel(r[k])
  {
    if files == [] then []
    else if HasFirstChannel(files[0]) then [files[0]] + WithChannel(files[1..])
    else WithChannel(files[1..])
  }

  /** `.map(record => { filename, folder, permalink, id })` */
  function DescribeAll(files: seq<RawFile>, ctx: Context): seq<Descriptor>
    requires forall k | 0 <= k < |files| :: HasFirstChannel(files[k])
  {
    if files == [] then [] else [Describe(files[0], ctx)] + DescribeAll(files[1..], ctx)
  }

  /** `.filter(file => file.permalink)` */
  function WithPermalink(ds: seq<Descriptor>): seq<Descriptor>
  {
    if ds == [] then []
    else if ds[0].permalink != "" then [ds[0]] + WithPermalink(ds[1..])
    else WithPermalink(ds[1..])
  }

  /** The builder as the source chains it: filter, map, filter. */
  function BuildPage(files: seq<RawFile>, ctx: Context): seq<Descriptor>
  {
    WithPermalink(DescribeAll(WithChannel(files), ctx))
  }

  // ------------------------------------------------- reference definition

  /** An entry survives the builder when it has a first channel and a non-empty download link. */
  predicate Keep(f: RawFile)
  {
    HasFirstChannel(f) && f.permalink != ""
  }

  /** One pass: keep the surviving entries, in order, and describe each. */
  function Selected(files: seq<RawFile>, ctx: Context): seq<Descriptor>
  {
    if files == [] then []
    else if Keep(files[0]) then [Describe(files[0], ctx)] + Selected(files[1..], ctx)
    else Selected(files[1..], ctx)
  }

  /** The number of entries the builder drops. */
  function Dropped(files: seq<RawFile>): nat
  {
    if files == [] then 0 else (if Keep(files[0]) then 0 else 1) + Dropped(files[1..])
  }

  /** The three-stage chain equals the one-pass selection. */
  lemma {:induction false} BuildPageIsSelection(files: seq<RawFile>, ctx: Context)
    ensures BuildPage(files, ctx) == Selected(files, ctx)
  {
    if files != [] {
      BuildPageIsSelection(files[1..], ctx);
      var f := files[0];
      if HasFirstChannel(f) {
        var w := WithChannel(files);
        assert w == [f] + WithChannel(files[1..]);
        assert w[0] == f && w[1..] == WithChannel(files[1..]);
        var ds := DescribeAll(w, ctx);
        assert ds == [Describe(f, ctx)] + DescribeAll(WithChannel(files[1..]), ctx);
        assert ds[0] == Describe(f, ctx) && ds[1..] == DescribeAll(WithChannel(files[1..]), ctx);
      }
    }
  }

  /** Exactly the dropped entries are missing from the output. */
  lemma {:induction false} SelectedLength(files: seq<RawFile>, ctx: Context)
    ensures |Selected(files, ctx)| == |files| - Dropped(files)
    ensures Dropped(files) <= |files|
  {
    if files != [] {
      SelectedLength(files[1..], ctx);
    }
  }

  /**
   * The output lists the surviving entries in their original relative order:
   * `idx` is strictly increasing, descriptor k describes entry idx[k], and every
   * surviving entry has its index in `idx`.
   */
  lemma {:induction false} SelectedIsOrderedSubsequence(files: seq<RawFile>, ctx: Context)
    returns (idx: seq<nat>)
    ensures |idx| == |Selected(files, ctx)|
    ensures forall k | 0 <= k < |idx| ::
      idx[k] < |files| && Keep(files[idx[k]]) && Selected(files, ctx)[k] == Describe(files[idx[k]], ctx)
    ensures forall k, l | 0 <= k < l < |idx| :: idx[k] < idx[l]
    ensures forall i {:trigger i in idx} | 0 <= i < |files| && Keep(files[i]) :: i in idx
  {
    if files == [] {
      idx := [];
    } else {
      var rest := SelectedIsOrderedSubsequence(files[1..], ctx);
      var shifted := ShiftIndices(files, ctx, rest);
      if Keep(files[0]) {
        idx := PrependFirst(files, ctx, shifted);
      } else {
        idx := shifted;
        assert Selected(files, ctx) == Selected(files[1..], ctx);
      }
    }
  }

  /** The other step: a surviving first entry puts index 0 in front. */
  lemma PrependFirst(files: seq<RawFile>, ctx: Context, shifted: seq<nat>) returns (idx: seq<nat>)
    requires files != [] && Keep(files[0])
    requires |shifted| == |Selected(files[1..], ctx)|
    requires forall k | 0 <= k < |shifted| ::
      0 < shifted[k] < |files| && Keep(files[shifted[k]]) && Selected(files[1..], ctx)[k] == Describe(files[shifted[k]], ctx)
    requires forall k, l | 0 <= k < l < |shifted| :: shifted[k] < shifted[l]
    requires forall i {:trigger i in shifted} | 0 < i < |files| && Keep(files[i]) :: i in shifted
    ensures |idx| == |Selected(files, ctx)|
    ensures forall k | 0 <= k < |idx| ::
      idx[k] < |files| && Keep(files[idx[k]]) && Selected(files, ctx)[k] == Describe(files[idx[k]], ctx)
    ensures forall k, l | 0 <= k < l < |idx| :: idx[k] < idx[l]
    ensures forall i {:trigger i in idx} | 0 <= i < |files| && Keep(files[i]) :: i in idx
  {
    idx := [0] + shifted;
    var sel := Selected(files[1..], ctx);
    assert Selected(files, ctx) == [Describe(files[0], ctx)] + sel;
    forall k | 0 < k < |idx|
      ensures idx[k] < |files| && Keep(files[idx[k]]) && Selected(files, ctx)[k] == Describe(files[idx[k]], ctx)
    {
      assert idx[k] == shifted[k - 1] && Selected(files, ctx)[k] == sel[k - 1];
    }
    assert idx[0] == 0 && Selected(files, ctx)[0] == Describe(files[0], ctx);
    forall k, l | 0 <= k < l < |idx| ensures idx[k] < idx[l] {
      assert idx[l] == shifted[l - 1];
      if k > 0 { assert idx[k] == shifted[k - 1]; }
    }
    forall i | 0 < i < |files| && Keep(files[i]) ensures i in idx {
      assert i in shifted;
    }
  }

  /** The step of the lemma above: indices into the tail, shifted by one, index the whole page. */
  lemma ShiftIndices(files: seq<RawFile>, ctx: Context, rest: seq<nat>) returns (shifted: seq<nat>)
    requires files != []
    requires |rest| == |Selected(files[1..], ctx)|
    requires forall k | 0 <= k < |rest| ::
      rest[k] < |files[1..]| && Keep(files[1..][rest[k]]) && Selected(files[1..], ctx)[k] == Describe(files[1..][rest[k]], ctx)
    requires forall k, l | 0 <= k < l < |rest| :: rest[k] < rest[l]
    requires forall i {:trigger i in rest} | 0 <= i < |files[1..]| && Keep(files[1..][i]) :: i in rest
    ensures |shifted| == |rest|
    ensures forall k | 0 <= k < |shifted| ::
      0 < shifted[k] < |files| && Keep(files[shifted[k]]) && Selected(files[1..], ctx)[k] == Describe(files[shifted[k]], ctx)
    ensures forall k, l | 0 <= k < l < |shifted| :: shifted[k] < shifted[l]
    ensures forall i {:trigger i in shifted} | 0 < i < |files| && Keep(files[i]) :: i in shifted
  {
    var tail := files[1..];
    shifted := seq(|rest|, k requires 0 <= k < |rest| => rest[k] + 1);
    forall k | 0 <= k < |rest| ensures files[shifted[k]] == tail[rest[k]] {}
    forall i | 0 < i < |files| && Keep(files[i]) ensures i in shifted {
      assert tail[i - 1] == files[i];
      assert i - 1 in rest;
      var k :| 0 <= k < |rest| && rest[k] == i - 1;
      assert shifted[k] == i;
    }
  }

  /** The builder never grows a page, and each descriptor's folder is its entry's first channel's name. */
  lemma {:induction false} BuildPageFacts(files: seq<RawFile>, ctx: Context)
    ensures |BuildPage(files, ctx)| == |files| - Dropped(files) <= |files|
    ensures forall d | d in BuildPage(files, ctx) :: d.permalink != ""
    ensures forall d | d in BuildPage(files, ctx) ::
      exists i | 0 <= i < |files| :: Keep(files[i]) && d == Describe(files[i], ctx)
  {
    BuildPageIsSelection(files, ctx);
    SelectedLength(files, ctx);
    var idx := SelectedIsOrderedSubsequence(files, ctx);
    forall d | d in BuildPage(files, ctx)
      ensures exists i | 0 <= i < |files| :: Keep(files[i]) && d == Describe(files[i], ctx)
    {
      var k :| 0 <= k < |idx| && BuildPage(files, ctx)[k] == d;
      var i := idx[k];
      assert Keep(files[i]) && d == Describe(files[i], ctx);
    }
  }
}
