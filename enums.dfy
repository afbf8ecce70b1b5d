/** The string constants of app/utils/enums.py. */
module Enums {

  const ConfigSchema: string := "config"
  const LogSchema: string := "log"

  const AccessLevelAdmin: string := "Admin"
  const AccessLevelNormal: string := "User"

  const UserStatusActive: string := "active"
  const UserStatusInactive: string := "inactive"

  const SessionUserId: string := "user_id"
  const SessionUserName: string := "user_name"
  const SessionUserAccessLevel: string := "user_access_level"
  const SessionUserInfo: string := "user_info"
}
