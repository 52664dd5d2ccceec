/**
 * The administration page: the paged user list with its search, the ban
 * and admin switches, the user avatars, and the editors that add, rename
 * and delete tags and effort levels.
 */
module AdminPage {
  import opened JsText

  /** Users shown per page. */
  const PageSize: nat := 10

  // ---------------------------------------------------------------- paging

  /** The inclusive row range `(first, last)` that page `page` asks for. */
  function RowRange(page: int): (r: (int, int))
    ensures r.1 - r.0 + 1 == PageSize
  {
    ((page - 1) * PageSize, page * PageSize - 1)
  }

  /**
   * Pages start at row 0, each begins right after the one before it, and
   * every row belongs to exactly one page, namely `row / 10 + 1`.
   */
  lemma PagesTile(page: int, row: nat)
    ensures RowRange(1).0 == 0
    ensures RowRange(page + 1).0 == RowRange(page).1 + 1
    ensures RowRange(page).0 <= row <= RowRange(page).1 <==> page == row / PageSize + 1
  {
    var p := row / PageSize + 1;
    assert RowRange(p).0 <= row <= RowRange(p).1;
    if page < p {
      assert RowRange(page).1 <= RowRange(p - 1).1;
    } else if page > p {
      assert RowRange(page).0 >= RowRange(p + 1).0;
    }
  }

  /** `Math.ceil(totalUsers / 10)`. */
  function TotalPages(totalUsers: nat): (n: nat)
    ensures n * PageSize >= totalUsers
    ensures n > 0 ==> (n - 1) * PageSize < totalUsers
  {
    (totalUsers + PageSize - 1) / PageSize
  }

  /** The "of N" in the page caption: `totalPages || 1`. */
  function ShownPages(totalUsers: nat): (n: nat)
    ensures n >= 1
    ensures totalUsers > 0 ==> n == TotalPages(totalUsers)
  {
    var t := TotalPages(totalUsers);
    if t == 0 then 1 else t
  }

  /** The Previous button's `disabled`. */
  predicate PrevDisabled(page: int) {
    page == 1
  }

  /** The Next button's `disabled`. */
  predicate NextDisabled(page: int, totalUsers: nat) {
    page * PageSize >= totalUsers
  }

  /** From any real page, Next is usable exactly when a later page exists. */
  lemma NextEnabledIff(page: int, totalUsers: nat)
    requires page >= 1
    ensures !NextDisabled(page, totalUsers) <==> page < TotalPages(totalUsers)
  {
    var t := TotalPages(totalUsers);
    if page < t {
      assert page * PageSize <= (t - 1) * PageSize;
    } else {
      assert page * PageSize >= t * PageSize;
    }
  }

  /** The paging state of the user list. */
  class UserPager {
    var page: int
    var search: string
    var totalUsers: nat

    /** The page is a real page, and past the first only while it exists. */
    ghost predicate Valid()
      reads this
    {
      page >= 1 && (page == 1 || page <= TotalPages(totalUsers))
    }

    constructor ()
      ensures page == 1 && search == "" && totalUsers == 0 && Valid()
    {
      page := 1;
      search := "";
      totalUsers := 0;
    }

    /** Typing in the search box goes back to the first page. */
    method SetSearch(text: string)
      modifies this
      ensures search == text && page == 1 && totalUsers == old(totalUsers)
      ensures Valid()
    {
      search := text;
      page := 1;
    }

    /** `loadUsers` answered with the row count: `count || 0`. */
    method Loaded(count: Option<nat>)
      modifies this
      ensures totalUsers == (if count.Some? then count.value else 0)
      ensures page == old(page) && search == old(search)
    {
      totalUsers := if count.Some? then count.value else 0;
    }

    /**
     * A click on Previous; a disabled button ignores it. The page may lie
     * past the last one when a reload found fewer users; Previous still
     * steps back from there.
     */
    method Prev()
      requires page >= 1
      modifies this
      ensures page == if PrevDisabled(old(page)) then old(page) else old(page) - 1
      ensures search == old(search) && totalUsers == old(totalUsers)
      ensures page >= 1
      ensures old(Valid()) ==> Valid()
    {
      if !PrevDisabled(page) {
        page := page - 1;
      }
    }

    /** A click on Next; a disabled button ignores it. */
    method Next()
      requires page >= 1
      modifies this
      ensures page == if NextDisabled(old(page), totalUsers) then old(page) else old(page) + 1
      ensures search == old(search) && totalUsers == old(totalUsers)
      ensures page >= 1
      ensures old(Valid()) ==> Valid()
    {
      NextEnabledIff(page, totalUsers);
      if !NextDisabled(page, totalUsers) {
        page := page + 1;
      }
    }
  }

  // ---------------------------------------------------------------- users

  datatype AdminUser = AdminUser(id: string, email: string, username: string, isAdmin: bool, banned: bool)

  /** The row `toggleBan` writes: the ban flag negated, everything else kept. */
  function BanToggled(u: AdminUser): (v: AdminUser)
    ensures v.banned == !u.banned && v.(banned := u.banned) == u
  {
    u.(banned := !u.banned)
  }

  /** The row `toggleAdmin` writes: the admin flag negated, everything else kept. */
  function AdminToggled(u: AdminUser): (v: AdminUser)
    ensures v.isAdmin == !u.isAdmin && v.(isAdmin := u.isAdmin) == u
  {
    u.(isAdmin := !u.isAdmin)
  }

  /** Each switch pressed twice restores the user, and the two switches commute. */
  lemma TogglesUndo(u: AdminUser)
    ensures BanToggled(BanToggled(u)) == u
    ensures AdminToggled(AdminToggled(u)) == u
    ensures BanToggled(AdminToggled(u)) == AdminToggled(BanToggled(u))
  {
  }

  /** The avatar letter: the first character of the username, else of the email, else "?", upper-cased. */
  function AvatarInitial(username: string, email: string): (r: string)
    ensures |r| == 1
    ensures !('a' <= r[0] <= 'z')
    ensures |username| > 0 ==> Lower(r) == Lower(username[..1])
    ensures |username| == 0 && |email| > 0 ==> Lower(r) == Lower(email[..1])
    ensures |username| == 0 && |email| == 0 ==> r == "?"
  {
    var s := if |username| > 0 then username else if |email| > 0 then email else "?";
    [UpperChar(s[0])]
  }

  /** The letter depends on the name alone when there is one, and ignores ASCII case. */
  lemma AvatarInitialCaseBlind(username: string, email: string, otherEmail: string)
    ensures |username| > 0 ==> AvatarInitial(username, email) == AvatarInitial(username, otherEmail)
    ensures AvatarInitial(Lower(username), Lower(email)) == AvatarInitial(username, email)
    ensures |username| == 0 && |email| == 0 ==> AvatarInitial(username, email) == "?"
  {
  }

  // ---------------------------------------------------------------- tags and efforts

  /**
   * The editor of one list of names, the tags or the effort levels: the
   * text of the add box and the row being renamed.
   */
  class NameEditor {
    var newName: string
    var editingId: Option<string>
    var editingValue: string

    constructor ()
      ensures newName == "" && editingId.None? && editingValue == ""
    {
      newName := "";
      editingId := None;
      editingValue := "";
    }

    /**
     * `addTag` / `addEffort`: a name blank after trimming does nothing;
     * otherwise the trimmed name is inserted and the box emptied.
     */
    method Add() returns (inserted: Option<string>)
      modifies this
      ensures inserted.None? <==> AllWhitespace(old(newName))
      ensures inserted.None? ==> newName == old(newName)
      ensures inserted.Some? ==> inserted.value == Trim(old(newName)) && newName == ""
      ensures editingId == old(editingId) && editingValue == old(editingValue)
    {
      TrimBlank(newName);
      var name := Trim(newName);
      if name == "" {
        return None;
      }
      inserted := Some(name);
      newName := "";
    }

    /** The pencil button: start renaming row `id`, from its current name. */
    method StartEdit(id: string, name: string)
      modifies this
      ensures editingId == Some(id) && editingValue == name && newName == old(newName)
    {
      editingId := Some(id);
      editingValue := name;
    }

    /** The cross button, or Escape in the rename box. */
    method CancelEdit()
      modifies this
      ensures editingId.None? && editingValue == old(editingValue) && newName == old(newName)
    {
      editingId := None;
    }

    /**
     * `saveTag` / `saveEffort`: a name blank after trimming does nothing;
     * otherwise row `id` gets the trimmed name and the rename box closes.
     */
    method Save(id: string) returns (renamed: Option<(string, string)>)
      modifies this
      ensures renamed.None? <==> AllWhitespace(old(editingValue))
      ensures renamed.None? ==> editingId == old(editingId)
      ensures renamed.Some? ==> renamed.value == (id, Trim(old(editingValue))) && editingId.None?
      ensures editingValue == old(editingValue) && newName == old(newName)
    {
      TrimBlank(editingValue);
      var name := Trim(editingValue);
      if name == "" {
        return None;
      }
      renamed := Some((id, name));
      editingId := None;
    }

    /** A key in the rename box: Enter saves, Escape cancels, anything else is typing. */
    method RenameKey(key: string, id: string) returns (renamed: Option<(string, string)>)
      modifies this
      ensures key == "Enter" ==> (renamed.None? <==> AllWhitespace(old(editingValue)))
      ensures key == "Enter" && renamed.Some? ==> renamed.value == (id, Trim(old(editingValue))) && editingId.None?
      ensures key == "Escape" ==> renamed.None? && editingId.None?
      ensures key != "Enter" && key != "Escape" ==> renamed.None? && editingId == old(editingId)
      ensures editingValue == old(editingValue) && newName == old(newName)
    {
      renamed := None;
      if key == "Enter" {
        renamed := Save(id);
      }
      if key == "Escape" {
        CancelEdit();
      }
    }
  }

  /** A saved name is never blank and trimming it again changes nothing. */
  lemma SavedNameTrimmed(s: string)
    requires !AllWhitespace(s)
    ensures Trim(s) != "" && Trim(Trim(s)) == Trim(s)
    ensures !IsWhitespace(Trim(s)[0]) && !IsWhitespace(Trim(s)[|Trim(s)| - 1])
  {
    TrimBlank(s);
    TrimIdempotent(s);
  }

  /** `deleteTag` / `deleteEffort`: the row goes only when the confirmation is accepted. */
  function Deleted(id: string, confirmed: bool): (d: Option<string>)
    ensures d.Some? <==> confirmed
    ensures d.Some? ==> d.value == id
  {
    if confirmed then Some(id) else None
  }
}
