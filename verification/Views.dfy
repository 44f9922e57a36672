/**
 The console's views and the table of their paths. A view is its name; the table
 gives every listed view the path "/name/", except that the overview is "/".
 */
module Views {
  import opened Wrappers

  /** `AdminView`: a listed name, or one of the two detail views. */
  type View = string

  const OVERVIEW: View := "overview"
  const PLAYER360: View := "player360"
  const MATCH360: View := "match360"
  const ADMOB: View := "admob"

  /** The keys of `viewPaths`, in order. */
  const LISTED: seq<View> := [
    OVERVIEW, "analytics", "operations", "system-resources", "players", "sessions", "friends", "chats",
    "player-audits", "matches", "progressions", "economy", "gld", "commerce", "social-gifts", "paid-rewards",
    "crypto-rewards", "leaderboards", "game-config", "google-auth", "app-config", "reward-policies", ADMOB,
    "storage", "feedback", "referrals", "ranking", "transactions", "notifications", "fraud",
    "missions-achievements", "streaks", "win-streaks", "daily-challenge", "daily-hints", "support",
    "cooperative", "gem-blitz", "tile-rush", "word-dash", "domino"]

  const TABLE_SIZE: nat := 41

  /** v is a key of `viewPaths`. */
  predicate IsListed(v: View) {
    exists i | 0 <= i < TABLE_SIZE :: LISTED[i] == v
  }

  predicate Detail(v: View) {
    v == PLAYER360 || v == MATCH360
  }

  /** The one path segment of a listed view; the overview has none. */
  function Segment(v: View): string {
    if v == OVERVIEW then "" else v
  }

  /** `viewPaths[v]`. */
  function ViewPath(v: View): Option<string> {
    if !IsListed(v) then None
    else if v == OVERVIEW then Some("/")
    else Some("/" + v + "/")
  }

  /** Lower-case letters and hyphens, at least one. */
  predicate Plain(s: string) {
    s != "" && forall i | 0 <= i < |s| :: 'a' <= s[i] <= 'z' || s[i] == '-'
  }

  lemma PlainFrom0(i: nat)
    requires 0 <= i < 11
    ensures Plain(LISTED[i])
  {
  }

  lemma PlainFrom11(i: nat)
    requires 11 <= i < 22
    ensures Plain(LISTED[i])
  {
  }

  lemma PlainFrom22(i: nat)
    requires 22 <= i < 32
    ensures Plain(LISTED[i])
  {
  }

  lemma PlainFrom32(i: nat)
    requires 32 <= i < TABLE_SIZE
    ensures Plain(LISTED[i])
  {
  }

  /** Listed names are plain words, so none is a detail view and none holds a separator. */
  lemma ListedPlain(v: View)
    requires IsListed(v)
    ensures Plain(v) && !Detail(v)
  {
    var i :| 0 <= i < TABLE_SIZE && LISTED[i] == v;
    if i < 11 { PlainFrom0(i); }
    else if i < 22 { PlainFrom11(i); }
    else if i < 32 { PlainFrom22(i); }
    else { PlainFrom32(i); }
    DetailNotPlain();
  }

  lemma DetailNotPlain()
    ensures !Plain(PLAYER360) && !Plain(MATCH360)
  {
    assert PLAYER360[6] == '3' && MATCH360[5] == '3';
  }

  lemma NamedListed()
    ensures IsListed(OVERVIEW) && IsListed(ADMOB) && ADMOB != OVERVIEW
  {
    assert LISTED[0] == OVERVIEW && LISTED[22] == ADMOB;
  }
}
