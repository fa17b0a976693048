/** Access to a stored ECG record: only the user who created it may read
    it or ask for its analysis. */
module Permissions {
  import opened Wrappers
  import opened Models

  const DeniedMessage := "Permission Denied"

  /** Who sent the request: nobody logged in, or a user by key. */
  datatype Requester = Anonymous | Authenticated(user: UserKey)

  /** The refusal the check raises instead of answering false. */
  datatype Denied = PermissionDenied(message: string)

  /** `has_object_permission`: the record's creator is let through; anyone
      else, an anonymous requester included, is refused with the message.
      The view plays no part. */
  function HasObjectPermission<View>(request: Requester, view: View, obj: Ecg): (r: Result<bool, Denied>)
    ensures r.Ok? <==> request == Authenticated(obj.owner)
    ensures r != Ok(false)
    ensures r.Err? ==> r.error == PermissionDenied(DeniedMessage)
  {
    if request != Authenticated(obj.owner) then Err(PermissionDenied(DeniedMessage)) else Ok(true)
  }

  /** The decision depends on the record's owner alone: not on the view,
      nor on the record's key or leads. */
  lemma OnlyTheOwnerMatters<View>(request: Requester, v: View, w: View, a: Ecg, b: Ecg)
    requires a.owner == b.owner
    ensures HasObjectPermission(request, v, a) == HasObjectPermission(request, w, b)
  {
  }

  /** The view tests: the creator reads the record, another user is
      turned away, and so is a requester who has not logged in. */
  lemma OwnerOnly<View>(view: View, obj: Ecg, other: UserKey)
    requires other != obj.owner
    ensures HasObjectPermission(Authenticated(obj.owner), view, obj) == Ok(true)
    ensures HasObjectPermission(Authenticated(other), view, obj) == Err(PermissionDenied(DeniedMessage))
    ensures HasObjectPermission(Anonymous, view, obj) == Err(PermissionDenied(DeniedMessage))
  {
  }
}
