/**
 * The shared helpers of the blog platform: the session predicates and page
 * guards, slug derivation and text truncation.
 */
module Config {
  import opened Base
  import opened Php

  /** The keys of `$_SESSION` the pages read; each may be unset. */
  datatype Session = Session(userId: Option<int>, username: Option<string>, role: Option<string>)

  const AnonymousSession := Session(None, None, None)

  /** `isLoggedIn()`: `user_id` is set. */
  predicate IsLoggedIn(s: Session): (r: bool)
    ensures r <==> s.userId != None
  {
    s.userId.Some?
  }

  /** `isAdmin()`: `role` is set and is exactly "admin". */
  predicate IsAdmin(s: Session): (r: bool)
    ensures r ==> s.role.Some? && s.role.value == "admin"
    ensures s.role.None? || s.role.value != "admin" ==> !r
  {
    s.role == Some("admin")
  }

  /** The one-shot message a page leaves in `$_SESSION['success_message']` or `$_SESSION['error_message']`. */
  datatype Flash = Success(text: string) | Failure(error: Error)

  /** A `Location:` header followed by `exit()`, with the flash message set just before it. */
  datatype Redirect = Redirect(location: string, flash: Option<Flash>)

  /**
   * How a request ends: a redirect; the page rendered with the errors it
   * collected (none on a plain view); the page rendered with a success notice;
   * or an exception that no code catches.
   */
  datatype Response = Redirected(to: Redirect) | Shown(errors: seq<Error>) | Notified(notice: string) | Aborted

  const LoginPage := "../public/login.php"
  const IndexPage := "../public/index.php"
  const DashboardPage := "../admin/dashboard.php"
  const AdminRequired := "Admin access required."

  /**
   * `requireLogin()`, followed by `requireAdmin()` when `adminOnly`:
   * `None` lets the page run, `Some(r)` is the redirect that ends it.
   */
  function Guard(s: Session, adminOnly: bool): (r: Option<Redirect>)
    ensures r.None? <==> IsLoggedIn(s) && (adminOnly ==> IsAdmin(s))
    ensures !IsLoggedIn(s) ==> r == Some(Redirect(LoginPage, None))
    ensures IsLoggedIn(s) && adminOnly && !IsAdmin(s) ==> r == Some(Redirect(IndexPage, Some(Failure(Msg(AdminRequired)))))
  {
    if !IsLoggedIn(s) then Some(Redirect(LoginPage, None))
    else if adminOnly && !IsAdmin(s) then Some(Redirect(IndexPage, Some(Failure(Msg(AdminRequired)))))
    else None
  }

  // ---------------------------------------------------------------- slugs

  predicate IsLetterOrDigit(c: char) {
    'A' <= c <= 'Z' || 'a' <= c <= 'z' || '0' <= c <= '9'
  }

  /** The character class `[A-Za-z0-9-]` that the slug pattern keeps. */
  predicate Kept(c: char) {
    IsLetterOrDigit(c) || c == '-'
  }

  /** The characters a finished slug may contain: `[a-z0-9-]`. */
  predicate SlugChar(c: char) {
    'a' <= c <= 'z' || '0' <= c <= '9' || c == '-'
  }

  /**
   * `preg_replace('/[^A-Za-z0-9-]+/', '-', $s)`: every maximal run of characters
   * outside the kept class becomes a single `-`; `inRun` says that a run is
   * already open, its `-` already written.
   */
  function ReplaceRuns(s: string, inRun: bool): (r: string)
    ensures forall i :: 0 <= i < |r| ==> Kept(r[i])
  {
    if s == [] then []
    else if Kept(s[0]) then [s[0]] + ReplaceRuns(s[1..], false)
    else if inRun then ReplaceRuns(s[1..], true)
    else ['-'] + ReplaceRuns(s[1..], true)
  }

  /**
   * `strtolower(trim(preg_replace('/[^A-Za-z0-9-]+/', '-', $title)))`, the first
   * step of `createSlug` and the whole base of `makeSlug`.
   */
  function SlugBase(title: string): (r: string)
    ensures forall i :: 0 <= i < |r| ==> SlugChar(r[i])
  {
    TrimWsAfterReplace(title);
    Lower(TrimWs(ReplaceRuns(title, false)))
  }

  /** `createSlug($title)`: the base with `-` stripped at both ends. */
  function CreateSlug(title: string): (r: string)
    ensures forall i :: 0 <= i < |r| ==> SlugChar(r[i])
    ensures r == [] || (r[0] != '-' && r[|r| - 1] != '-')
  {
    TrimKeeps(SlugBase(title), {'-'}, SlugChar);
    Trim(SlugBase(title), {'-'})
  }

  /** A string that has only kept characters passes through the replacement unchanged. */
  lemma {:induction false} ReplaceRunsKeeps(s: string, inRun: bool)
    requires forall i :: 0 <= i < |s| ==> Kept(s[i])
    ensures ReplaceRuns(s, inRun) == s
  {
    if s != [] {
      ReplaceRunsKeeps(s[1..], false);
    }
  }

  /** The replacement neither creates nor removes letters and digits. */
  lemma {:induction false} ReplaceRunsLetters(s: string, inRun: bool)
    ensures (exists i :: 0 <= i < |ReplaceRuns(s, inRun)| && IsLetterOrDigit(ReplaceRuns(s, inRun)[i]))
        <==> (exists i :: 0 <= i < |s| && IsLetterOrDigit(s[i]))
  {
    if s != [] {
      var tail := if Kept(s[0]) then false else true;
      ReplaceRunsLetters(s[1..], tail);
      var r, rt := ReplaceRuns(s, inRun), ReplaceRuns(s[1..], tail);
      if exists i :: 0 <= i < |s| && IsLetterOrDigit(s[i]) {
        var i :| 0 <= i < |s| && IsLetterOrDigit(s[i]);
        if i > 0 {
          assert s[1..][i - 1] == s[i];
          var j :| 0 <= j < |rt| && IsLetterOrDigit(rt[j]);
          if Kept(s[0]) || !inRun {
            assert r[j + 1] == rt[j];
          } else {
            assert r[j] == rt[j];
          }
        } else {
          assert r[0] == s[0];
        }
      }
      if exists i :: 0 <= i < |r| && IsLetterOrDigit(r[i]) {
        var i :| 0 <= i < |r| && IsLetterOrDigit(r[i]);
        if Kept(s[0]) || !inRun {
          if i > 0 {
            assert rt[i - 1] == r[i];
            var j :| 0 <= j < |s[1..]| && IsLetterOrDigit(s[1..][j]);
            assert s[j + 1] == s[1..][j];
          } else if !Kept(s[0]) {
            assert r[0] == '-';
          }
        } else {
          assert rt[i] == r[i];
          var j :| 0 <= j < |s[1..]| && IsLetterOrDigit(s[1..][j]);
          assert s[j + 1] == s[1..][j];
        }
      }
    }
  }

  /** A string made of `-` only is stripped to nothing by `trim($s, '-')`; one with another character is not. */
  lemma HyphenTrimEmpty(s: string)
    ensures Trim(s, {'-'}) == [] <==> forall i :: 0 <= i < |s| ==> s[i] == '-'
  {
    if !forall i :: 0 <= i < |s| ==> s[i] == '-' {
      var i :| 0 <= i < |s| && s[i] != '-';
      OtherCharSurvives(s, i);
    }
  }

  lemma OtherCharSurvives(s: string, i: nat)
    requires i < |s| && s[i] != '-'
    ensures Trim(s, {'-'}) != []
  {
    var l := TrimLeft(s, {'-'});
    assert s[i] !in {'-'};
    assert |s| - |l| <= i;
    assert l[i - (|s| - |l|)] == s[i];
    var r := TrimRight(l, {'-'});
    assert |r| > i - (|s| - |l|);
  }

  /** Kept characters are never whitespace, so `trim()` after the replacement changes nothing. */
  lemma TrimWsAfterReplace(s: string)
    ensures TrimWs(ReplaceRuns(s, false)) == ReplaceRuns(s, false)
  {
    var r := ReplaceRuns(s, false);
    if r != [] {
      assert Kept(r[0]) && Kept(r[|r| - 1]);
      assert r[0] !in Whitespace && r[|r| - 1] !in Whitespace;
    }
    assert TrimWs(r) == Trim(r, Whitespace);
  }

  /** An all-punctuation title gives the empty slug, and only such a title does: there is no fallback. */
  lemma CreateSlugEmpty(title: string)
    ensures CreateSlug(title) == [] <==> forall i :: 0 <= i < |title| ==> !IsLetterOrDigit(title[i])
  {
    var r := ReplaceRuns(title, false);
    TrimWsAfterReplace(title);
    ReplaceRunsLetters(title, false);
    assert SlugBase(title) == Lower(r);
    HyphenTrimEmpty(Lower(r));
    LowerHyphens(r);
  }

  /** Over kept characters, the lower-cased text is all `-` exactly when the text has no letter or digit. */
  lemma LowerHyphens(r: string)
    requires forall i :: 0 <= i < |r| ==> Kept(r[i])
    ensures (forall i :: 0 <= i < |Lower(r)| ==> Lower(r)[i] == '-') <==> (forall i :: 0 <= i < |r| ==> !IsLetterOrDigit(r[i]))
  {
    var lo := Lower(r);
    forall i | 0 <= i < |r| ensures (lo[i] == '-') == !IsLetterOrDigit(r[i]) {
      assert Kept(r[i]) && lo[i] == LowerChar(r[i]);
    }
  }

  /** Lower-casing leaves slug characters alone. */
  lemma LowerSlugChars(s: string)
    requires forall i :: 0 <= i < |s| ==> SlugChar(s[i])
    ensures Lower(s) == s
  {
    forall i | 0 <= i < |s| ensures Lower(s)[i] == s[i] {
      assert SlugChar(s[i]);
    }
  }

  /** A finished slug (only `[a-z0-9-]`, no `-` at either end) is a fixed point of `createSlug`. */
  lemma CreateSlugFixes(s: string)
    requires forall i :: 0 <= i < |s| ==> SlugChar(s[i])
    requires s == [] || (s[0] != '-' && s[|s| - 1] != '-')
    ensures CreateSlug(s) == s
  {
    SlugBaseFixes(s);
    FinishedBase(s);
  }

  /** Slug characters pass through the replacement, the whitespace trim and the lower-casing. */
  lemma SlugBaseFixes(s: string)
    requires forall i :: 0 <= i < |s| ==> SlugChar(s[i])
    ensures SlugBase(s) == s
  {
    assert forall i :: 0 <= i < |s| ==> Kept(s[i]);
    ReplaceRunsKeeps(s, false);
    TrimWsAfterReplace(s);
    LowerSlugChars(s);
  }

  /** Slugging a slug gives it back. */
  lemma CreateSlugIdempotent(title: string)
    ensures CreateSlug(CreateSlug(title)) == CreateSlug(title)
  {
    CreateSlugFixes(CreateSlug(title));
  }

  /** Hyphens already present are kept, not collapsed with neighbouring runs. */
  lemma CreateSlugKeepsHyphens()
    ensures CreateSlug("a - b") == "a---b"
  {
    ReplaceHyphens();
    TrimWsAfterReplace("a - b");
    LowerSlugChars("a---b");
    assert SlugBase("a - b") == "a---b";
    FinishedBase("a - b");
  }

  /** The replacement turns each space of "a - b" into its own `-`, the `-` between them being kept. */
  lemma ReplaceHyphens()
    ensures ReplaceRuns("a - b", false) == "a---b"
  {
    var t := "a - b";
    assert t[1..] == " - b" && t[1..][1..] == "- b" && t[1..][1..][1..] == " b" && t[1..][1..][1..][1..] == "b";
  }

  /** When the base has no `-` at either end, the final trim of `createSlug` changes nothing. */
  lemma FinishedBase(title: string)
    requires SlugBase(title) == [] || (SlugBase(title)[0] != '-' && SlugBase(title)[|SlugBase(title)| - 1] != '-')
    ensures CreateSlug(title) == SlugBase(title)
  {
    var b := SlugBase(title);
    assert CreateSlug(title) == Trim(b, {'-'});
  }

  /** Letters and digits only. */
  predicate Word(w: string) {
    w != [] && forall i :: 0 <= i < |w| ==> IsLetterOrDigit(w[i])
  }

  /** No character of the slug class at all. */
  predicate Separator(p: string) {
    p != [] && forall i :: 0 <= i < |p| ==> !Kept(p[i])
  }

  /** Inside an open run, separator characters write nothing. */
  lemma {:induction false} ReplaceRunsInsideRun(p: string)
    requires forall i :: 0 <= i < |p| ==> !Kept(p[i])
    ensures ReplaceRuns(p, true) == []
  {
    if p != [] {
      ReplaceRunsInsideRun(p[1..]);
    }
  }

  /** A whole separator becomes one `-`. */
  lemma ReplaceRunsSeparator(p: string)
    requires Separator(p)
    ensures ReplaceRuns(p, false) == "-"
  {
    ReplaceRunsInsideRun(p[1..]);
  }

  /** The replacement turns each separator between three words into one `-`. */
  lemma ReplaceThreeWords(a: string, p: string, b: string, q: string, c: string)
    requires Word(a) && Word(b) && Word(c) && Separator(p) && Separator(q)
    ensures ReplaceRuns(a + p + b + q + c, false) == a + "-" + b + "-" + c
  {
    ReplaceRunsThrough(a + p + b + q, c, false);
    ReplaceRunsThrough(a + p + b, q, false);
    ReplaceRunsThrough(a + p, b, false);
    ReplaceRunsThrough(a, p, false);
    assert forall i :: 0 <= i < |a| ==> Kept(a[i]);
    assert forall i :: 0 <= i < |b| ==> Kept(b[i]);
    assert forall i :: 0 <= i < |c| ==> Kept(c[i]);
    ReplaceRunsKeeps(a, false);
    ReplaceRunsKeeps(b, RunOpenAfter(a + p, false));
    ReplaceRunsKeeps(c, RunOpenAfter(a + p + b + q, false));
    ReplaceRunsSeparator(p);
    ReplaceRunsSeparator(q);
    assert RunOpenAfter(a + p + b, false) == false by {
      assert (a + p + b)[|a + p + b| - 1] == b[|b| - 1];
    }
  }

  /** Lower-casing three hyphen-joined words lower-cases each word. */
  lemma LowerThreeWords(a: string, b: string, c: string)
    ensures Lower(a + "-" + b + "-" + c) == Lower(a) + "-" + Lower(b) + "-" + Lower(c)
  {
    LowerConcat(a + "-" + b + "-", c);
    LowerConcat(a + "-" + b, "-");
    LowerConcat(a + "-", b);
    LowerConcat(a, "-");
    LowerSlugChars("-");
  }

  /**
   * Three words joined by two separators slug to the lower-cased words joined
   * by single hyphens: each run of punctuation and spaces becomes one `-`.
   */
  lemma CreateSlugThreeWords(a: string, p: string, b: string, q: string, c: string)
    requires Word(a) && Word(b) && Word(c) && Separator(p) && Separator(q)
    ensures SlugBase(a + p + b + q + c) == Lower(a) + "-" + Lower(b) + "-" + Lower(c)
    ensures CreateSlug(a + p + b + q + c) == Lower(a) + "-" + Lower(b) + "-" + Lower(c)
  {
    var t := a + p + b + q + c;
    SlugBaseThreeWords(a, p, b, q, c);
    var lo := Lower(a) + "-" + Lower(b) + "-" + Lower(c);
    assert lo[0] == Lower(a)[0] == LowerChar(a[0]);
    assert lo[|lo| - 1] == Lower(c)[|c| - 1] == LowerChar(c[|c| - 1]);
    FinishedBase(t);
  }

  lemma SlugBaseThreeWords(a: string, p: string, b: string, q: string, c: string)
    requires Word(a) && Word(b) && Word(c) && Separator(p) && Separator(q)
    ensures SlugBase(a + p + b + q + c) == Lower(a) + "-" + Lower(b) + "-" + Lower(c)
  {
    ReplaceThreeWords(a, p, b, q, c);
    TrimWsAfterReplace(a + p + b + q + c);
    LowerThreeWords(a, b, c);
  }

  /**
   * A word followed by punctuation: the base keeps the trailing `-` the
   * punctuation becomes, and only `createSlug`'s final trim removes it.
   */
  lemma TrailingSeparator(a: string, p: string)
    requires Word(a) && Separator(p)
    ensures SlugBase(a + p) == Lower(a) + "-"
    ensures CreateSlug(a + p) == Lower(a)
  {
    SlugBaseTrailing(a, p);
    var w := Lower(a);
    assert w[0] == LowerChar(a[0]) && w[|w| - 1] == LowerChar(a[|a| - 1]);
    TrimTrailingHyphen(w);
  }

  lemma SlugBaseTrailing(a: string, p: string)
    requires Word(a) && Separator(p)
    ensures SlugBase(a + p) == Lower(a) + "-"
  {
    var r := ReplaceRuns(a + p, false);
    assert SlugBase(a + p) == Lower(r) by {
      TrimWsAfterReplace(a + p);
    }
    assert r == a + "-" by {
      ReplaceTrailing(a, p);
    }
    LowerAppendHyphen(a);
  }

  lemma LowerAppendHyphen(a: string)
    ensures Lower(a + "-") == Lower(a) + "-"
  {
    var x, y := Lower(a + "-"), Lower(a) + "-";
    forall i | 0 <= i < |x| ensures x[i] == y[i] {
      if i < |a| {
        assert (a + "-")[i] == a[i];
      }
    }
  }

  lemma ReplaceTrailing(a: string, p: string)
    requires Word(a) && Separator(p)
    ensures ReplaceRuns(a + p, false) == a + "-"
  {
    ReplaceRunsThrough(a, p, false);
    assert forall i :: 0 <= i < |a| ==> Kept(a[i]);
    ReplaceRunsKeeps(a, false);
    ReplaceRunsSeparator(p);
  }

  /** `trim($s, '-')` of a text with no `-` at its ends and one `-` appended gives the text back. */
  lemma TrimTrailingHyphen(w: string)
    requires w != [] && w[0] != '-' && w[|w| - 1] != '-'
    ensures Trim(w + "-", {'-'}) == w
  {
    var lo := w + "-";
    assert lo[0] !in {'-'};
    assert TrimLeft(lo, {'-'}) == lo;
    assert lo[..|lo| - 1] == w;
    assert w[|w| - 1] !in {'-'};
    assert TrimRight(w, {'-'}) == w;
  }

  /** The worked example, "Hello, World! 2024" (written in its pieces), gives "hello-world-2024". */
  lemma CreateSlugHelloWorld()
    ensures CreateSlug("Hello" + ", " + "World" + "! " + "2024") == "hello" + "-" + "world" + "-" + "2024"
  {
    assert Word("Hello") && Word("World") && Word("2024") && Separator(", ") && Separator("! ");
    CreateSlugThreeWords("Hello", ", ", "World", "! ", "2024");
    HelloLowerPieces();
  }

  lemma HelloLowerPieces()
    ensures Lower("Hello") == "hello" && Lower("World") == "world" && Lower("2024") == "2024"
  {
    var h, w, n := "Hello", "World", "2024";
    assert h[1..] == "ello" && h[2..] == "llo" && h[3..] == "lo" && h[4..] == "o";
    assert w[1..] == "orld" && w[2..] == "rld" && w[3..] == "ld" && w[4..] == "d";
    assert n[1..] == "024" && n[2..] == "24" && n[3..] == "4";
  }

  /** Whether a run of replaced characters is still open after reading `x`. */
  function RunOpenAfter(x: string, inRun: bool): bool {
    if x == [] then inRun else !Kept(x[|x| - 1])
  }

  /** The replacement reads its input left to right: a split point only passes on whether a run is open. */
  lemma {:induction false} ReplaceRunsThrough(x: string, y: string, inRun: bool)
    ensures ReplaceRuns(x + y, inRun) == ReplaceRuns(x, inRun) + ReplaceRuns(y, RunOpenAfter(x, inRun))
  {
    if x != [] {
      assert (x + y)[1..] == x[1..] + y;
      ReplaceRunsThrough(x[1..], y, !Kept(x[0]));
      assert RunOpenAfter(x[1..], !Kept(x[0])) == RunOpenAfter(x, inRun);
    } else {
      assert x + y == y;
    }
  }

  // ------------------------------------------------------------- truncate

  /** `truncate($text, $length)`: short text unchanged, long text cut to `length` bytes plus "...". */
  function Truncate(text: string, length: nat): (r: string)
    ensures |text| <= length ==> r == text
    ensures |text| > length ==> |r| == length + 3 && r[..length] == text[..length] && r[length..] == "..."
  {
    if |text| <= length then text else text[..length] + "..."
  }

  /** Truncating twice to the same length is truncating once. */
  lemma TruncateIdempotent(text: string, length: nat)
    ensures Truncate(Truncate(text, length), length) == Truncate(text, length)
  {
    if |text| > length {
      var t := Truncate(text, length);
      assert t[..length] + "..." == t;
    }
  }
}
