/**
 * What the two frontend components share: the signed-in viewer, the ownership
 * test behind the edit and delete buttons and the profile link, and
 * JavaScript's `String.prototype.trim`.
 */
module ClientCommon {

  /** The `user` the auth context provides: nobody, or an account whose `id` may be empty. */
  datatype Viewer = Guest | Member(id: string)

  /**
   * `Boolean(user?.id && ownerId && String(user.id) === String(ownerId))`:
   * ownership needs a signed-in viewer with a non-empty id equal to the owner's.
   */
  function IsMine(viewer: Viewer, ownerId: string): (mine: bool)
    ensures mine <==> exists id :: viewer == Member(id) && id == ownerId && id != ""
  {
    match viewer
    case Guest => false
    case Member(id) => id != "" && ownerId != "" && id == ownerId
  }

  const MY_PROFILE := "/profile/me"

  /** `isMine ? '/profile/me' : '/profile/' + ownerId`. */
  function ProfileHref(viewer: Viewer, ownerId: string): (href: string)
    ensures IsMine(viewer, ownerId) ==> href == MY_PROFILE
    ensures !IsMine(viewer, ownerId) ==> href == "/profile/" + ownerId
  {
    if IsMine(viewer, ownerId) then MY_PROFILE else "/profile/" + ownerId
  }

  /**
   * The link leads to "/profile/me" exactly when the card is the viewer's own,
   * or when the owner's id is itself the string "me".
   */
  lemma ProfileHrefIsMe(viewer: Viewer, ownerId: string)
    ensures ProfileHref(viewer, ownerId) == MY_PROFILE <==> IsMine(viewer, ownerId) || ownerId == "me"
  {
    if !IsMine(viewer, ownerId) && ProfileHref(viewer, ownerId) == MY_PROFILE {
      assert "/profile/" + ownerId == "/profile/" + "me";
      assert ownerId == ("/profile/" + ownerId)[9..];
    }
  }

  /**
   * The characters `trim` removes: the WhiteSpace and LineTerminator code points
   * of section 12.2 and 12.3 of ECMA-262 (tab, vertical tab, form feed, space,
   * no-break space, byte order mark, the Zs category, LF, CR, LS and PS).
   */
  predicate IsJsWhitespace(c: char) {
    || c == '\t' || c == '\n' || c == '\U{000B}' || c == '\U{000C}' || c == '\r' || c == ' '
    || c == '\U{00A0}' || c == '\U{1680}' || ('\U{2000}' <= c <= '\U{200A}')
    || c == '\U{2028}' || c == '\U{2029}' || c == '\U{202F}' || c == '\U{205F}'
    || c == '\U{3000}' || c == '\U{FEFF}'
  }

  /** The position of the first character at or after `from` that `strip` keeps, or `|s|`. */
  function LeadFrom(s: string, strip: char -> bool, from: nat): (k: nat)
    requires from <= |s|
    ensures from <= k <= |s|
    ensures forall i :: from <= i < k ==> strip(s[i])
    ensures k < |s| ==> !strip(s[k])
    decreases |s| - from
  {
    if from == |s| || !strip(s[from]) then from else LeadFrom(s, strip, from + 1)
  }

  /** The end of `s[lo..hi]` once its trailing characters that satisfy `strip` are dropped. */
  function TrailFrom(s: string, strip: char -> bool, lo: nat, hi: nat): (e: nat)
    requires lo <= hi <= |s|
    ensures lo <= e <= hi
    ensures forall i :: e <= i < hi ==> strip(s[i])
    ensures e > lo ==> !strip(s[e - 1])
    decreases hi
  {
    if hi == lo || !strip(s[hi - 1]) then hi else TrailFrom(s, strip, lo, hi - 1)
  }

  /**
   * The middle of `s` between a run of leading and a run of trailing `strip`
   * characters; it starts and ends with a kept character when non-empty.
   */
  function Trim(s: string, strip: char -> bool): (r: string)
    ensures |r| <= |s|
    ensures var a := LeadFrom(s, strip, 0);
            && a + |r| <= |s| && r == s[a..a + |r|]
            && (forall i :: 0 <= i < a ==> strip(s[i]))
            && (forall i :: a + |r| <= i < |s| ==> strip(s[i]))
    ensures r != [] ==> !strip(r[0]) && !strip(r[|r| - 1])
  {
    var a := LeadFrom(s, strip, 0);
    s[a..TrailFrom(s, strip, a, |s|)]
  }

  /** A trimmed string is empty exactly when every character of it is stripped. */
  lemma TrimEmptyIff(s: string, strip: char -> bool)
    ensures Trim(s, strip) == "" <==> forall i :: 0 <= i < |s| ==> strip(s[i])
  {
  }

  /** Trimming twice is trimming once. */
  lemma TrimIdempotent(s: string, strip: char -> bool)
    ensures Trim(Trim(s, strip), strip) == Trim(s, strip)
  {
    var r := Trim(s, strip);
    if r != [] {
      assert LeadFrom(r, strip, 0) == 0;
      assert TrailFrom(r, strip, 0, |r|) == |r|;
    }
  }

  /**
   * `s.trim()`: empty exactly when `s` is all whitespace, and otherwise starting
   * and ending with a character that is not whitespace.
   */
  function JsTrim(s: string): (r: string)
    ensures |r| <= |s|
    ensures r == "" <==> forall i :: 0 <= i < |s| ==> IsJsWhitespace(s[i])
    ensures r != "" ==> !IsJsWhitespace(r[0]) && !IsJsWhitespace(r[|r| - 1])
  {
    TrimEmptyIff(s, IsJsWhitespace);
    Trim(s, IsJsWhitespace)
  }
}
