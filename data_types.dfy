/** Record shapes of the family-tree data set (src/types/data-types.ts). */
module DataTypes {

  /** An optional field of a record: `undefined` is `None`. */
  datatype Option<T> = None | Some(value: T)

  datatype Gender = M | F

  /** The descriptive fields of a member. The grouping logic copies them and never looks inside. */
  datatype Payload = Payload(
    name: string,
    gender: Gender,
    birthYear: string,
    deathYear: Option<string>,
    reign: Option<string>,
    photo: Option<string>)

  /** A person in the tree; `parent` and `group` are keys of another member and of a family group. */
  datatype FamilyMember = FamilyMember(key: int, parent: Option<int>, group: Option<int>, payload: Payload)

  /** A family group, rooted at the member whose key is `headOfFamily`. */
  datatype FamilyGroup = FamilyGroup(key: int, name: Option<string>, isGroup: bool, headOfFamily: int)
}
