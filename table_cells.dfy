/**
  What the Table puts in one cell. Without an `entityType` a cell shows the raw
  value of its column. With one, some columns get domain rendering: badges for
  a user's role and status and a post's category and status, placeholders for
  an empty last-login or view count, and a row of action buttons whose set
  depends on the post's status.
*/
module TableCells {
  import opened Js
  import opened TableData
  import Badge
  import Button

  /** The `entityType` prop of the table. */
  datatype EntityKind = UserRows | PostRows

  /** The callback prop an action button calls. */
  datatype Handler = OnEdit | OnDelete | OnPublish | OnArchive | OnRestore

  datatype CellButton = CellButton(text: string, variant: Button.ButtonVariant, handler: Handler)

  datatype Cell =
    | Raw(v: Value)                                           // the value itself
    | StatusBadge(variant: Badge.BadgeVariant, text: string)  // a Badge with an icon and a label
    | CategoryPill(variant: Badge.BadgeVariant, content: Value) // a pill Badge showing the value
    | Placeholder(text: string)                               // a fixed text shown for a missing value
    | LocaleNumber(v: Value)                                  // `v.toLocaleString()`
    | Buttons(buttons: seq<CellButton>)

  /** `switch (value)` with `case "admin"` etc.: only a string equal to the case matches. */
  predicate Is(v: Value, s: string) {
    v == Str(s)
  }

  function RoleBadge(value: Value): (c: Cell)
    ensures c.StatusBadge?
    ensures c.text != "" <==> value in {Str("admin"), Str("moderator"), Str("user"), Str("guest")}
  {
    if Is(value, "admin") then StatusBadge(Badge.Danger, "관리자")
    else if Is(value, "moderator") then StatusBadge(Badge.Warning, "운영자")
    else if Is(value, "user") then StatusBadge(Badge.Primary, "사용자")
    else if Is(value, "guest") then StatusBadge(Badge.Secondary, "게스트")
    else StatusBadge(Badge.Primary, "")
  }

  /** A user's status badge; it reuses the post labels and makes every other status "거부됨". */
  function UserStatusBadge(value: Value): (c: Cell)
    ensures c.StatusBadge? && c.text != ""
    ensures c.variant == Badge.Danger <==> value !in {Str("active"), Str("inactive")}
  {
    if Is(value, "active") then StatusBadge(Badge.Success, "게시됨")
    else if Is(value, "inactive") then StatusBadge(Badge.Warning, "임시저장")
    else StatusBadge(Badge.Danger, "거부됨")
  }

  function PostStatusBadge(value: Value): (c: Cell)
    ensures c.StatusBadge?
    ensures c.text != "" <==> value in {Str("published"), Str("draft"), Str("archived"), Str("pending"), Str("rejected")}
  {
    if Is(value, "published") then StatusBadge(Badge.Success, "게시됨")
    else if Is(value, "draft") then StatusBadge(Badge.Warning, "임시저장")
    else if Is(value, "archived") then StatusBadge(Badge.Secondary, "보관됨")
    else if Is(value, "pending") then StatusBadge(Badge.Info, "대기중")
    else if Is(value, "rejected") then StatusBadge(Badge.Danger, "거부됨")
    else StatusBadge(Badge.Primary, "")
  }

  function CategoryVariant(value: Value): (v: Badge.BadgeVariant)
    ensures v != Badge.Secondary <==> value in {Str("development"), Str("design"), Str("accessibility")}
  {
    if Is(value, "development") then Badge.Primary
    else if Is(value, "design") then Badge.Info
    else if Is(value, "accessibility") then Badge.Danger
    else Badge.Secondary
  }

  const EditButton: CellButton := CellButton("수정", Button.Primary, OnEdit)
  const DeleteButton: CellButton := CellButton("삭제", Button.Danger, OnDelete)

  /** The buttons of a post row: edit, then the one status change its status allows, then delete. */
  function PostActions(row: Row): (b: seq<CellButton>)
    ensures 2 <= |b| <= 3
    ensures b[0] == EditButton && b[|b| - 1] == DeleteButton
  {
    var status := Get(row, "status");
    [EditButton]
    + (if Is(status, "draft") then [CellButton("게시", Button.Success, OnPublish)] else [])
    + (if Is(status, "published") then [CellButton("보관", Button.Secondary, OnArchive)] else [])
    + (if Is(status, "archived") then [CellButton("복원", Button.Primary, OnRestore)] else [])
    + [DeleteButton]
  }

  /** `renderCell(row, columnKey)` */
  function RenderCell(kind: EntityKind, row: Row, columnKey: string): (c: Cell)
    ensures c.Buttons? <==> columnKey == "actions"
    ensures c.StatusBadge? ==> columnKey in {"role", "status"}
    ensures columnKey !in {"role", "status", "lastLogin", "actions", "category", "views"} ==> c == Raw(Get(row, columnKey))
  {
    var value := Get(row, columnKey);
    assert kind == UserRows || kind == PostRows;
    if kind == UserRows && columnKey == "role" then RoleBadge(value)
    else if kind == UserRows && columnKey == "status" then UserStatusBadge(value)
    else if kind == UserRows && columnKey == "lastLogin" then
      (if IsTruthy(value) then Raw(value) else Placeholder("-"))
    else if kind == UserRows && columnKey == "actions" then Buttons([EditButton, DeleteButton])
    else if kind == PostRows && columnKey == "category" then CategoryPill(CategoryVariant(value), value)
    else if kind == PostRows && columnKey == "status" then PostStatusBadge(value)
    else if kind == PostRows && columnKey == "views" then
      (if value == Null || value == Undefined || value == Str("") then Placeholder("0") else LocaleNumber(value))
    else if kind == PostRows && columnKey == "actions" then Buttons(PostActions(row))
    else Raw(value)
  }

  /** `entityType ? renderCell(row, column.key) : row[column.key]` */
  function CellContent(entityType: Option<EntityKind>, row: Row, columnKey: string): (c: Cell)
    ensures entityType.None? ==> c == Raw(Get(row, columnKey))
  {
    if entityType.Some? then RenderCell(entityType.value, row, columnKey) else Raw(Get(row, columnKey))
  }

  // ---------------------------------------------------------------------
  // Properties
  // ---------------------------------------------------------------------

  predicate Offers(buttons: seq<CellButton>, h: Handler) {
    exists i | 0 <= i < |buttons| :: buttons[i].handler == h
  }

  /** A post row always starts with edit and ends with delete, and offers publish, archive
      and restore exactly for a draft, a published and an archived post. */
  lemma PostActionsFollowStatus(row: Row)
    ensures var b := PostActions(row);
      && b[0] == EditButton && b[|b| - 1] == DeleteButton
      && (Offers(b, OnPublish) <==> Is(Get(row, "status"), "draft"))
      && (Offers(b, OnArchive) <==> Is(Get(row, "status"), "published"))
      && (Offers(b, OnRestore) <==> Is(Get(row, "status"), "archived"))
      && |b| == (if Is(Get(row, "status"), "draft") || Is(Get(row, "status"), "published")
                    || Is(Get(row, "status"), "archived") then 3 else 2)
  {
    var b := PostActions(row);
    var status := Get(row, "status");
    var publish := CellButton("게시", Button.Success, OnPublish);
    var archive := CellButton("보관", Button.Secondary, OnArchive);
    var restore := CellButton("복원", Button.Primary, OnRestore);
    if Is(status, "draft") {
      assert b == [EditButton, publish, DeleteButton];
      assert b[1].handler == OnPublish;
    } else if Is(status, "published") {
      assert b == [EditButton, archive, DeleteButton];
      assert b[1].handler == OnArchive;
    } else if Is(status, "archived") {
      assert b == [EditButton, restore, DeleteButton];
      assert b[1].handler == OnRestore;
    } else {
      assert b == [EditButton, DeleteButton];
    }
  }

  /** The status change a post row offers is never one that the Button's own rules would
      disable for a post with that status. */
  lemma OfferedChangeIsAllowed(row: Row, status: string)
    requires Get(row, "status") == Str(status)
    ensures Offers(PostActions(row), OnPublish) ==> !Button.Forbidden(Button.Post, Button.Publish, Button.Entity("", status))
    ensures Offers(PostActions(row), OnArchive) ==> !Button.Forbidden(Button.Post, Button.Archive, Button.Entity("", status))
  {
    PostActionsFollowStatus(row);
  }

  /** A known role shows the same variant and label that the Badge gives for that role. */
  lemma RoleBadgeAgreesWithBadge(role: string)
    requires Badge.RoleRule(role).Some?
    ensures RoleBadge(Str(role)) == StatusBadge(Badge.RoleRule(role).value.variant, Badge.RoleRule(role).value.text)
  {
  }

  /** A known post status shows the same variant and label that the Badge gives for it. */
  lemma PostStatusAgreesWithBadge(status: string)
    requires Badge.StatusRule(status).Some?
    ensures PostStatusBadge(Str(status)) ==
            StatusBadge(Badge.StatusRule(status).value.variant, Badge.StatusRule(status).value.text)
  {
  }

  /** An active user is labelled like a published post, and any status other than active or
      inactive (suspended included) like a rejected one. */
  lemma UserStatusUsesPostLabels(status: string)
    ensures UserStatusBadge(Str("active")) == PostStatusBadge(Str("published"))
    ensures status != "active" && status != "inactive" ==>
      UserStatusBadge(Str(status)) == PostStatusBadge(Str("rejected"))
  {
  }

  /** A column with no domain rendering shows its raw value, whatever the entity type. */
  lemma OtherColumnsRaw(kind: EntityKind, row: Row, columnKey: string)
    requires columnKey !in {"role", "status", "lastLogin", "actions", "category", "views"}
    ensures RenderCell(kind, row, columnKey) == Raw(Get(row, columnKey))
  {
  }

  /** An empty last-login shows "-" and a missing view count shows "0"; anything else is
      shown as it is (the view count through its locale formatting). */
  lemma MissingValuePlaceholders(row: Row)
    ensures RenderCell(UserRows, row, "lastLogin") ==
      if IsTruthy(Get(row, "lastLogin")) then Raw(Get(row, "lastLogin")) else Placeholder("-")
    ensures var v := Get(row, "views");
      RenderCell(PostRows, row, "views") == if v in {Null, Undefined, Str("")} then Placeholder("0") else LocaleNumber(v)
    ensures var v := Get(row, "views");
      v.Num? ==> RenderCell(PostRows, row, "views") == LocaleNumber(v)
  {
  }

  /** A category pill shows the category itself; only three known categories get their own colour. */
  lemma CategoryPillShowsValue(row: Row)
    ensures var v := Get(row, "category");
      && RenderCell(PostRows, row, "category") == CategoryPill(CategoryVariant(v), v)
      && (CategoryVariant(v) != Badge.Secondary <==> v in {Str("development"), Str("design"), Str("accessibility")})
  {
  }
}
