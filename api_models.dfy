/** Records of the REST API (api/models.py): token expiry, the uniqueness of
    token keys and device ids, and the guards of two completion rates. */
module ApiModels {
  import opened Common
  import opened Users

  datatype ApiToken = ApiToken(user: UserId, key: string, isActive: bool, expiresAt: Option<Time>)

  datatype MobileDevice = MobileDevice(user: UserId, deviceId: string)

  datatype PushNotification = PushNotification(totalRecipients: int, sentCount: int, failedCount: int)

  datatype OfflineSync = OfflineSync(totalItems: int, syncedItems: int, failedItems: int)

  /** `APIToken.is_expired`: never without an expiry time, otherwise strictly
      after it. */
  predicate TokenIsExpired(t: ApiToken, now: Time)
  {
    t.expiresAt.Some? && now > t.expiresAt.value
  }

  /** An expired token stays expired, a token without expiry never expires,
      and a token is still valid at the very instant of its expiry. */
  lemma TokenExpiryIsPermanent(t: ApiToken, now: Time, later: Time)
    requires now <= later
    ensures TokenIsExpired(t, now) ==> TokenIsExpired(t, later)
    ensures t.expiresAt.None? ==> !TokenIsExpired(t, later)
    ensures t.expiresAt.Some? ==> !TokenIsExpired(t, t.expiresAt.value)
  {
  }

  function TokenKey(t: ApiToken): string
  {
    t.key
  }

  /** Issuing a token: refused when its key is already in use. */
  function AddToken(rows: seq<ApiToken>, t: ApiToken): (r: Option<seq<ApiToken>>)
    ensures r.None? <==> exists i :: 0 <= i < |rows| && rows[i].key == t.key
    ensures r.Some? ==> r.value == rows + [t]
    ensures UniqueBy(rows, TokenKey) && r.Some? ==> UniqueBy(r.value, TokenKey)
  {
    var r := InsertUnique(rows, t, TokenKey);
    assert KeyTaken(rows, TokenKey, t.key) ==> exists i :: 0 <= i < |rows| && rows[i].key == t.key;
    r
  }

  function DeviceId(d: MobileDevice): string
  {
    d.deviceId
  }

  function UserDevice(d: MobileDevice): (UserId, string)
  {
    (d.user, d.deviceId)
  }

  /** Registering a device: refused when its device id is already in use,
      whichever user registered it. */
  function AddDevice(rows: seq<MobileDevice>, d: MobileDevice): (r: Option<seq<MobileDevice>>)
    ensures r.None? <==> exists i :: 0 <= i < |rows| && rows[i].deviceId == d.deviceId
    ensures r.Some? ==> r.value == rows + [d]
    ensures UniqueBy(rows, DeviceId) && r.Some? ==> UniqueBy(r.value, DeviceId)
  {
    var r := InsertUnique(rows, d, DeviceId);
    assert KeyTaken(rows, DeviceId, d.deviceId) ==> exists i :: 0 <= i < |rows| && rows[i].deviceId == d.deviceId;
    r
  }

  /** The `(user, device_id)` constraint adds nothing to the unique device
      id: a table that keeps the latter keeps the former. */
  lemma DeviceIdUniqueImpliesUserDeviceUnique(rows: seq<MobileDevice>)
    requires UniqueBy(rows, DeviceId)
    ensures UniqueBy(rows, UserDevice)
  {
    forall i, j | 0 <= i < j < |rows|
      ensures UserDevice(rows[i]) != UserDevice(rows[j])
    {
      assert DeviceId(rows[i]) != DeviceId(rows[j]);
    }
  }

  /** `PushNotification.success_rate`, before rounding: 0 without recipients. */
  function PushSuccessRate(p: PushNotification): (r: real)
    ensures p.totalRecipients <= 0 ==> r == 0.0
    ensures p.totalRecipients > 0 ==> r * (p.totalRecipients as real) == (p.sentCount as real) * 100.0
  {
    GuardedRate(p.sentCount, p.totalRecipients)
  }

  /** `OfflineSync.progress_percentage`, before rounding: 0 without items. */
  function OfflineSyncProgress(s: OfflineSync): (r: real)
    ensures s.totalItems <= 0 ==> r == 0.0
    ensures s.totalItems > 0 ==> r * (s.totalItems as real) == (s.syncedItems as real) * 100.0
  {
    GuardedRate(s.syncedItems, s.totalItems)
  }

  /** With counts within their totals both rates are percentages. */
  lemma ApiRatesArePercentages(p: PushNotification, s: OfflineSync)
    requires 0 <= p.sentCount <= p.totalRecipients
    requires 0 <= s.syncedItems <= s.totalItems
    ensures 0.0 <= PushSuccessRate(p) <= 100.0
    ensures 0.0 <= OfflineSyncProgress(s) <= 100.0
  {
    if p.totalRecipients > 0 {
      RateAtMostHundred(p.sentCount, p.totalRecipients);
    }
    if s.totalItems > 0 {
      RateAtMostHundred(s.syncedItems, s.totalItems);
    }
  }
}
