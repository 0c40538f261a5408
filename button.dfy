/**
  The business rules a Button applies when it is told which entity and which
  action it stands for. The rules only take part when `entityType`, `action`
  and `entity` are all given; they can disable the button (never enable it),
  supply a label when the caller gave none, and force the colour variant of the
  destructive and state-changing actions.
*/
module Button {
  import opened Js

  datatype ButtonVariant = Primary | Secondary | Danger | Success | Info

  datatype EntityType = User | Post

  datatype Action = Create | Edit | Delete | Publish | Archive

  /** The fields of the entity record the rules read; a missing field reads as "". */
  datatype Entity = Entity(role: string, status: string)

  /** The domain rules take part only when all three props are present. */
  predicate RulesApply(entityType: Option<EntityType>, action: Option<Action>, entity: Option<Entity>) {
    entityType.Some? && action.Some? && entity.Some?
  }

  /** The three cases in which the action is not allowed on the entity. */
  predicate Forbidden(entityType: EntityType, action: Action, entity: Entity)
    ensures Forbidden(entityType, action, entity) ==>
      (entityType == User && action == Delete) || (entityType == Post && action in {Publish, Archive})
  {
    match (entityType, action)
    case (User, Delete) => entity.role == "admin"
    case (Post, Publish) => entity.status == "published"
    case (Post, Archive) => entity.status != "published"
    case _ => false
  }

  /** The label an action gets when the caller supplies no children. */
  function AutoLabel(entityType: EntityType, action: Action): (text: string)
    ensures text != ""
    ensures action == Create <==> |text| > 2
  {
    match action
    case Create => "새 " + (if entityType == User then "사용자" else "게시글") + " 만들기"
    case Edit => "수정"
    case Delete => "삭제"
    case Publish => "게시"
    case Archive => "보관"
  }

  /** The variant an action imposes, if any. */
  function ActionVariant(action: Action): (v: Option<ButtonVariant>)
    ensures v.Some? <==> action in {Delete, Publish, Archive}
    ensures v == Some(Danger) <==> action == Delete
  {
    match action
    case Delete => Some(Danger)
    case Publish => Some(Success)
    case Archive => Some(Secondary)
    case _ => None
  }

  method ResolveButton(disabled: bool, variant: Option<ButtonVariant>, children: Node, buttonType: Option<string>,
                       entityType: Option<EntityType>, action: Option<Action>, entity: Option<Entity>)
    returns (actualDisabled: bool, actualVariant: Option<ButtonVariant>, actualChildren: Node, actualType: string)
    ensures disabled ==> actualDisabled
    ensures actualDisabled <==>
      disabled || (RulesApply(entityType, action, entity) && Forbidden(entityType.value, action.value, entity.value))
    ensures actualVariant ==
      if RulesApply(entityType, action, entity) && ActionVariant(action.value).Some?
      then ActionVariant(action.value) else variant
    ensures actualChildren ==
      if RulesApply(entityType, action, entity) && !Truthy(children)
      then Text(AutoLabel(entityType.value, action.value)) else children
    ensures actualType == buttonType.GetOr("button")
  {
    actualType := if buttonType.Some? then buttonType.value else "button";
    actualDisabled := disabled;
    actualVariant := variant;
    actualChildren := children;

    if entityType.Some? && action.Some? && entity.Some? {
      var t, a, e := entityType.value, action.value, entity.value;

      if t == User && a == Delete && e.role == "admin" {
        actualDisabled := true;
      }
      if t == Post && a == Publish && e.status == "published" {
        actualDisabled := true;
      }
      if t == Post && a == Archive && e.status != "published" {
        actualDisabled := true;
      }

      if !Truthy(children) {
        if a == Create {
          actualChildren := Text("새 " + (if t == User then "사용자" else "게시글") + " 만들기");
        } else if a == Edit {
          actualChildren := Text("수정");
        } else if a == Delete {
          actualChildren := Text("삭제");
        } else if a == Publish {
          actualChildren := Text("게시");
        } else if a == Archive {
          actualChildren := Text("보관");
        }
      }

      if a == Delete {
        actualVariant := Some(Danger);
      } else if a == Publish {
        actualVariant := Some(Success);
      } else if a == Archive {
        actualVariant := Some(Secondary);
      }
    }
  }

  /** For a given post exactly one of "publish" and "archive" is forbidden. */
  lemma PublishXorArchive(post: Entity)
    ensures Forbidden(Post, Publish, post) != Forbidden(Post, Archive, post)
  {
  }

  /** Creating and editing are never forbidden and keep the caller's variant. */
  lemma CreateAndEditUnrestricted(entityType: EntityType, entity: Entity)
    ensures !Forbidden(entityType, Create, entity) && !Forbidden(entityType, Edit, entity)
    ensures ActionVariant(Create) == None && ActionVariant(Edit) == None
  {
  }

  /** Every automatic label is non-empty, so a button with the rules applied always has text. */
  lemma AutoLabelNonEmpty(entityType: EntityType, action: Action)
    ensures AutoLabel(entityType, action) != ""
  {
  }
}
