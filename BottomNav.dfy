/** The mobile tab bar of src/components/layout/BottomNav.tsx: its five items
    and the active-tab test. */
module BottomNav {
  import opened Text

  datatype NavItem = NavItem(title: string, path: string)

  /** `navItems`; the last item depends on whether someone is signed in. */
  function NavItems(signedIn: bool): seq<NavItem>
  {
    [
      NavItem("Home", "/"),
      NavItem("Subjects", "/subjects"),
      NavItem("Practice", "/practice"),
      NavItem("Mock Test", "/quiz"),
      NavItem("Profile", if signedIn then "/profile" else "/auth")
    ]
  }

  /** `path === item.path || (path.startsWith(item.path) && item.path !== "/")`. */
  predicate IsActive(path: string, itemPath: string) {
    path == itemPath || (StartsWith(path, itemPath) && itemPath != "/")
  }

  /** Five items, the profile item pointing at the profile page or the sign-in
      page. */
  lemma NavItemsSpec(signedIn: bool)
    ensures |NavItems(signedIn)| == 5
    ensures NavItems(signedIn)[4].path == (if signedIn then "/profile" else "/auth")
  {
  }

  /** The Home tab is active on "/" only; every tab is active on its own
      path; non-root tabs match any raw string prefix, not only whole
      segments. */
  lemma IsActiveSpec(path: string, itemPath: string)
    ensures IsActive(path, "/") <==> path == "/"
    ensures IsActive(itemPath, itemPath)
    ensures IsActive("/practice/maths", "/practice")
    ensures IsActive("/quizzes", "/quiz")
    ensures !IsActive("/", "/practice")
  {
    assert "/practice/maths"[..9] == "/practice";
    assert "/quizzes"[..5] == "/quiz";
  }

  /** Each non-root tab path is told apart from the others by its first four
      characters. */
  lemma PrefixesDiffer(signedIn: bool, i: nat, j: nat)
    requires 1 <= i < j < 5
    ensures |NavItems(signedIn)[i].path| >= 4 && |NavItems(signedIn)[j].path| >= 4
    ensures NavItems(signedIn)[i].path[..4] != NavItems(signedIn)[j].path[..4]
  {
    var items := NavItems(signedIn);
    var keys := ["/sub", "/pra", "/qui", if signedIn then "/pro" else "/aut"];
    forall k | 1 <= k < 5 ensures |items[k].path| >= 4 && items[k].path[..4] == keys[k - 1] {
    }
  }

  /** No path activates two different tabs at once. */
  lemma AtMostOneActive(signedIn: bool, path: string, i: nat, j: nat)
    requires i < j < 5
    ensures !(IsActive(path, NavItems(signedIn)[i].path) && IsActive(path, NavItems(signedIn)[j].path))
  {
    var items := NavItems(signedIn);
    var a, b := items[i].path, items[j].path;
    if IsActive(path, a) && IsActive(path, b) {
      if i == 0 {
        assert false;
      } else {
        PrefixesDiffer(signedIn, i, j);
        assert false;
      }
    }
  }
}
